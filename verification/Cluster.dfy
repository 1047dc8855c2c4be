/** The validators along cluster, hosts, progress and current stage (models/cluster.go,
    models/host.go, models/host_progress_info.go): their fields, in the order they are checked. */
module Cluster {
  import opened Wrappers
  import opened Numerals
  import opened Validation
  import opened Reporting
  import SubnetPattern

  const UUID := Format("uuid")
  const DATE_TIME := Format("date-time")

  const HOST_STAGES := [
    "Starting installation", "Waiting for control plane", "Waiting for bootkube", "Waiting for controller",
    "Installing", "Writing image to disk", "Copying registry data to disk", "Rebooting",
    "Waiting for ignition", "Configuring", "Joined", "Done", "Failed"]
  const HOST_ROLES := ["auto-assign", "master", "arbiter", "worker", "bootstrap"]
  const LOGS_STATES := ["requested", "collecting", "completed", "timeout", ""]
  const HOST_KINDS := ["Host", "AddToExistingClusterHost"]
  const MEDIA_STATUSES := ["connected", "disconnected"]
  const BOUND_STATUSES := [
    "discovering", "known", "disconnected", "insufficient", "disabled", "preparing-for-installation",
    "preparing-failed", "preparing-successful", "pending-for-input", "installing", "installing-in-progress",
    "installing-pending-user-action", "resetting-pending-user-action", "installed", "error", "resetting",
    "added-to-existing-cluster", "cancelled"]
  const UNBOUND_STATUSES := [
    "binding", "unbinding", "unbinding-pending-user-action", "known-unbound", "disconnected-unbound",
    "insufficient-unbound", "disabled-unbound", "discovering-unbound", "reclaiming", "reclaiming-rebooting"]
  const HOST_STATUSES := BOUND_STATUSES + UNBOUND_STATUSES
  const CPU_ARCHITECTURES := ["x86_64", "aarch64", "arm64", "ppc64le", "s390x", "multi"]
  const HIGH_AVAILABILITY_MODES := ["Full", "None"]
  const HYPERTHREADING_ROLES := [
    "none", "masters", "arbiters", "workers", "masters,arbiters", "masters,workers", "arbiters,workers",
    "masters,arbiters,workers", "all"]
  const CLUSTER_KINDS := ["Cluster", "AddHostsCluster", "DisconnectedCluster"]
  const NETWORK_TYPES := ["OpenShiftSDN", "OVNKubernetes", "CiscoACI", "Cilium", "Calico", "None"]
  const CLUSTER_STATUSES := [
    "insufficient", "ready", "error", "preparing-for-installation", "pending-for-input", "installing",
    "finalizing", "installed", "adding-hosts", "cancelled", "installing-pending-user-action", "unmonitored"]

  // ---------------------------------------------------------------- field names

  const AMS_SUBSCRIPTION_ID: FieldName := "ams_subscription_id"
  const API_VIPS: FieldName := "api_vips"
  const CHECKED_IN_AT: FieldName := "checked_in_at"
  const CLUSTER_ID: FieldName := "cluster_id"
  const CLUSTER_NETWORK_CIDR: FieldName := "cluster_network_cidr"
  const CLUSTER_NETWORK_HOST_PREFIX: FieldName := "cluster_network_host_prefix"
  const CLUSTER_NETWORKS: FieldName := "cluster_networks"
  const CONTROLLER_LOGS_COLLECTED_AT: FieldName := "controller_logs_collected_at"
  const CONTROLLER_LOGS_STARTED_AT: FieldName := "controller_logs_started_at"
  const CPU_ARCHITECTURE: FieldName := "cpu_architecture"
  const CREATED_AT: FieldName := "created_at"
  const CURRENT_STAGE: FieldName := "current_stage"
  const DISK_ENCRYPTION: FieldName := "disk_encryption"
  const HIGH_AVAILABILITY_MODE: FieldName := "high_availability_mode"
  const HOST_NETWORKS: FieldName := "host_networks"
  const HOSTS: FieldName := "hosts"
  const HREF: FieldName := "href"
  const HYPERTHREADING: FieldName := "hyperthreading"
  const ID: FieldName := "id"
  const IGNITION_ENDPOINT: FieldName := "ignition_endpoint"
  const IMAGE_INFO: FieldName := "image_info"
  const INFRA_ENV_ID: FieldName := "infra_env_id"
  const INGRESS_VIPS: FieldName := "ingress_vips"
  const INSTALL_COMPLETED_AT: FieldName := "install_completed_at"
  const INSTALL_STARTED_AT: FieldName := "install_started_at"
  const KIND: FieldName := "kind"
  const LAST_INSTALLATION_PREPARATION: FieldName := "last-installation-preparation"
  const LOAD_BALANCER: FieldName := "load_balancer"
  const LOGS_COLLECTED_AT: FieldName := "logs_collected_at"
  const LOGS_INFO: FieldName := "logs_info"
  const LOGS_STARTED_AT: FieldName := "logs_started_at"
  const MACHINE_NETWORK_CIDR: FieldName := "machine_network_cidr"
  const MACHINE_NETWORKS: FieldName := "machine_networks"
  const MEDIA_STATUS: FieldName := "media_status"
  const MONITORED_OPERATORS: FieldName := "monitored_operators"
  const NETWORK_TYPE: FieldName := "network_type"
  const OPENSHIFT_CLUSTER_ID: FieldName := "openshift_cluster_id"
  const OPERATOR_BUNDLES: FieldName := "operator_bundles"
  const PLATFORM: FieldName := "platform"
  const PROGRESS: FieldName := "progress"
  const PROGRESS_STAGES: FieldName := "progress_stages"
  const REGISTERED_AT: FieldName := "registered_at"
  const ROLE: FieldName := "role"
  const SERVICE_NETWORK_CIDR: FieldName := "service_network_cidr"
  const SERVICE_NETWORKS: FieldName := "service_networks"
  const STAGE_STARTED_AT: FieldName := "stage_started_at"
  const STAGE_UPDATED_AT: FieldName := "stage_updated_at"
  const STATUS: FieldName := "status"
  const STATUS_INFO: FieldName := "status_info"
  const STATUS_UPDATED_AT: FieldName := "status_updated_at"
  const SUGGESTED_ROLE: FieldName := "suggested_role"
  const UPDATED_AT: FieldName := "updated_at"

  /** A time: None is the zero time, otherwise its printed form. */
  type Time = Option<string>

  datatype HostProgressInfo = HostProgressInfo(currentStage: string, stageStartedAt: Time, stageUpdatedAt: Time)

  function ProgressNode(p: HostProgressInfo): Node {
    Node([
      Leaf(CURRENT_STAGE, Typed(NonZero(p.currentStage), Enum(HOST_STAGES))),
      Leaf(STAGE_STARTED_AT, Optional(p.stageStartedAt, DATE_TIME)),
      Leaf(STAGE_UPDATED_AT, Optional(p.stageUpdatedAt, DATE_TIME))])
  }

  /** The validated fields of a host; an Option of string is a pointer unless it is a Time. */
  datatype Host = Host(
    checkedInAt: Time, clusterID: Option<string>, createdAt: Time, href: Option<string>, id: Option<string>,
    infraEnvID: string, kind: Option<string>, logsCollectedAt: Time, logsInfo: string, logsStartedAt: Time,
    mediaStatus: Option<string>, progress: Option<HostProgressInfo>, progressStages: seq<string>,
    registeredAt: Time, role: string, stageStartedAt: Time, stageUpdatedAt: Time, status: Option<string>,
    statusInfo: Option<string>, statusUpdatedAt: Time, suggestedRole: string, updatedAt: Time)

  /** The fields checked before the progress. */
  function FieldsBeforeProgress(h: Host): (fs: seq<Field>)
    ensures |fs| == 11
  {
    [ Leaf(CHECKED_IN_AT, Optional(h.checkedInAt, DATE_TIME)),
      Leaf(CLUSTER_ID, Optional(h.clusterID, UUID)),
      Leaf(CREATED_AT, Optional(h.createdAt, DATE_TIME)),
      Leaf(HREF, Needed(h.href, Any)),
      Leaf(ID, Needed(h.id, UUID)),
      Leaf(INFRA_ENV_ID, Optional(NonZero(h.infraEnvID), UUID)),
      Leaf(KIND, Needed(h.kind, Enum(HOST_KINDS))),
      Leaf(LOGS_COLLECTED_AT, Optional(h.logsCollectedAt, DATE_TIME)),
      Leaf(LOGS_INFO, Typed(NonZero(h.logsInfo), Enum(LOGS_STATES))),
      Leaf(LOGS_STARTED_AT, Optional(h.logsStartedAt, DATE_TIME)),
      Leaf(MEDIA_STATUS, Optional(h.mediaStatus, Enum(MEDIA_STATUSES)))]
  }

  function HostProgressChild(h: Host): Option<Node> {
    if h.progress.None? then None else Some(ProgressNode(h.progress.value))
  }

  function ProgressField(h: Host): Field {
    Child(PROGRESS, false, HostProgressChild(h))
  }

  /** The fields checked after the progress. */
  function FieldsAfterProgress(h: Host): (fs: seq<Field>)
    ensures |fs| == 10
  {
    [ Scalars(PROGRESS_STAGES, h.progressStages, Enum(HOST_STAGES)),
      Leaf(REGISTERED_AT, Optional(h.registeredAt, DATE_TIME)),
      Leaf(ROLE, Typed(NonZero(h.role), Enum(HOST_ROLES))),
      Leaf(STAGE_STARTED_AT, Optional(h.stageStartedAt, DATE_TIME)),
      Leaf(STAGE_UPDATED_AT, Optional(h.stageUpdatedAt, DATE_TIME)),
      Leaf(STATUS, Needed(h.status, Enum(HOST_STATUSES))),
      Leaf(STATUS_INFO, Needed(h.statusInfo, Any)),
      Leaf(STATUS_UPDATED_AT, Optional(h.statusUpdatedAt, DATE_TIME)),
      Leaf(SUGGESTED_ROLE, Typed(NonZero(h.suggestedRole), Enum(HOST_ROLES))),
      Leaf(UPDATED_AT, Optional(h.updatedAt, DATE_TIME))]
  }

  function HostNode(h: Host): Node {
    Node(FieldsBeforeProgress(h) + [ProgressField(h)] + FieldsAfterProgress(h))
  }

  /** The validated fields of a cluster. Structs off the path to the hosts are any nodes. */
  datatype Cluster = Cluster(
    amsSubscriptionID: string, apiVips: seq<Option<Node>>, clusterNetworkCidr: string, clusterNetworkHostPrefix: int,
    clusterNetworks: seq<Option<Node>>, controllerLogsCollectedAt: Time, controllerLogsStartedAt: Time,
    cpuArchitecture: string, createdAt: Time, diskEncryption: Option<Node>, highAvailabilityMode: Option<string>,
    hostNetworks: seq<Option<Node>>, hosts: seq<Option<Host>>, href: Option<string>, hyperthreading: string,
    id: Option<string>, ignitionEndpoint: Option<Node>, imageInfo: Option<Node>, ingressVips: seq<Option<Node>>,
    installCompletedAt: Time, installStartedAt: Time, kind: Option<string>, lastInstallationPreparation: Option<Node>,
    loadBalancer: Option<Node>, logsInfo: string, machineNetworkCidr: string, machineNetworks: seq<Option<Node>>,
    monitoredOperators: seq<Option<Node>>, networkType: Option<string>, openshiftClusterID: string,
    operatorBundles: seq<Option<Node>>, platform: Option<Node>, progress: Option<Node>, serviceNetworkCidr: string,
    serviceNetworks: seq<Option<Node>>, status: Option<string>, statusInfo: Option<string>, statusUpdatedAt: Time,
    updatedAt: Time)

  function HostNodes(hosts: seq<Option<Host>>): (r: seq<Option<Node>>)
    ensures |r| == |hosts|
  {
    seq(|hosts|, i requires 0 <= i < |hosts| => if hosts[i].None? then None else Some(HostNode(hosts[i].value)))
  }

  /** The fields checked before the hosts. */
  function FieldsBeforeHosts(c: Cluster): (fs: seq<Field>)
    ensures |fs| == 12
  {
    [ Leaf(AMS_SUBSCRIPTION_ID, Optional(NonZero(c.amsSubscriptionID), UUID)),
      Items(API_VIPS, c.apiVips),
      Leaf(CLUSTER_NETWORK_CIDR, Optional(NonZero(c.clusterNetworkCidr), Cidr)),
      Leaf(CLUSTER_NETWORK_HOST_PREFIX, Ranged(c.clusterNetworkHostPrefix, 1, 128)),
      Items(CLUSTER_NETWORKS, c.clusterNetworks),
      Leaf(CONTROLLER_LOGS_COLLECTED_AT, Optional(c.controllerLogsCollectedAt, DATE_TIME)),
      Leaf(CONTROLLER_LOGS_STARTED_AT, Optional(c.controllerLogsStartedAt, DATE_TIME)),
      Leaf(CPU_ARCHITECTURE, Optional(NonZero(c.cpuArchitecture), Enum(CPU_ARCHITECTURES))),
      Leaf(CREATED_AT, Optional(c.createdAt, DATE_TIME)),
      Child(DISK_ENCRYPTION, false, c.diskEncryption),
      Leaf(HIGH_AVAILABILITY_MODE, Optional(c.highAvailabilityMode, Enum(HIGH_AVAILABILITY_MODES))),
      Items(HOST_NETWORKS, c.hostNetworks)]
  }

  /** The fields checked after the hosts, up to the installation times. */
  function FieldsAfterHosts(c: Cluster): (fs: seq<Field>)
    ensures |fs| == 8
  {
    [ Leaf(HREF, Needed(c.href, Any)),
      Leaf(HYPERTHREADING, Optional(NonZero(c.hyperthreading), Enum(HYPERTHREADING_ROLES))),
      Leaf(ID, Needed(c.id, UUID)),
      Child(IGNITION_ENDPOINT, false, c.ignitionEndpoint),
      Child(IMAGE_INFO, true, c.imageInfo),
      Items(INGRESS_VIPS, c.ingressVips),
      Leaf(INSTALL_COMPLETED_AT, Optional(c.installCompletedAt, DATE_TIME)),
      Leaf(INSTALL_STARTED_AT, Optional(c.installStartedAt, DATE_TIME))]
  }

  /** The fields checked next, up to the cluster's identity. */
  function MiddleFields(c: Cluster): (fs: seq<Field>)
    ensures |fs| == 8
  {
    [ Leaf(KIND, Needed(c.kind, Enum(CLUSTER_KINDS))),
      Child(LAST_INSTALLATION_PREPARATION, false, c.lastInstallationPreparation),
      Child(LOAD_BALANCER, false, c.loadBalancer),
      Leaf(LOGS_INFO, Typed(NonZero(c.logsInfo), Enum(LOGS_STATES))),
      Leaf(MACHINE_NETWORK_CIDR, Optional(NonZero(c.machineNetworkCidr), Cidr)),
      Items(MACHINE_NETWORKS, c.machineNetworks),
      Items(MONITORED_OPERATORS, c.monitoredOperators),
      Leaf(NETWORK_TYPE, Optional(c.networkType, Enum(NETWORK_TYPES)))]
  }

  /** The rest. */
  function LastFields(c: Cluster): (fs: seq<Field>)
    ensures |fs| == 10
  {
    [ Leaf(OPENSHIFT_CLUSTER_ID, Optional(NonZero(c.openshiftClusterID), UUID)),
      Items(OPERATOR_BUNDLES, c.operatorBundles),
      Child(PLATFORM, false, c.platform),
      Child(PROGRESS, false, c.progress),
      Leaf(SERVICE_NETWORK_CIDR, Optional(NonZero(c.serviceNetworkCidr), Cidr)),
      Items(SERVICE_NETWORKS, c.serviceNetworks),
      Leaf(STATUS, Needed(c.status, Enum(CLUSTER_STATUSES))),
      Leaf(STATUS_INFO, Needed(c.statusInfo, Any)),
      Leaf(STATUS_UPDATED_AT, Optional(c.statusUpdatedAt, DATE_TIME)),
      Leaf(UPDATED_AT, Optional(c.updatedAt, DATE_TIME))]
  }

  function HostsField(c: Cluster): Field {
    Items(HOSTS, HostNodes(c.hosts))
  }

  function ClusterNode(c: Cluster): Node {
    Node(FieldsBeforeHosts(c) + [HostsField(c)] + FieldsAfterHosts(c) + MiddleFields(c) + LastFields(c))
  }

  // ---------------------------------------------------------------- what swagger.yaml asks for

  /** Absent, or written in the format. */
  predicate Formatted(v: Option<string>, format: string, formats: Formats) {
    v.Some? ==> formats(format, v.value)
  }

  predicate IsTime(t: Time, formats: Formats) {
    Formatted(t, "date-time", formats)
  }

  predicate IsUuid(v: Option<string>, formats: Formats) {
    Formatted(v, "uuid", formats)
  }

  /** Present, and a uuid. */
  predicate GivenUuid(v: Option<string>, formats: Formats) {
    v.Some? && IsUuid(v, formats)
  }

  /** Empty, or one of the listed values. */
  predicate EmptyOrIn(s: string, allowed: seq<string>) {
    s == "" || s in allowed
  }

  /** Nil, or one of the listed values. */
  predicate NilOrIn(v: Option<string>, allowed: seq<string>) {
    v.Some? ==> v.value in allowed
  }

  /** Present, and one of the listed values. */
  predicate GivenIn(v: Option<string>, allowed: seq<string>) {
    v.Some? && v.value in allowed
  }

  /** Empty, or a subnet that Subnet.Validate accepts. */
  ghost predicate EmptyOrSubnet(s: string) {
    s == "" || SubnetPattern.ValidSubnet(s)
  }

  predicate GoodProgress(p: HostProgressInfo, formats: Formats) {
    EmptyOrIn(p.currentStage, HOST_STAGES) && IsTime(p.stageStartedAt, formats) && IsTime(p.stageUpdatedAt, formats)
  }

  predicate GoodHost(h: Host, formats: Formats) {
    && GivenUuid(h.id, formats) && h.href.Some? && h.statusInfo.Some?
    && GivenIn(h.kind, HOST_KINDS) && GivenIn(h.status, HOST_STATUSES)
    && IsUuid(h.clusterID, formats) && IsUuid(NonZero(h.infraEnvID), formats)
    && EmptyOrIn(h.role, HOST_ROLES) && EmptyOrIn(h.suggestedRole, HOST_ROLES) && EmptyOrIn(h.logsInfo, LOGS_STATES)
    && NilOrIn(h.mediaStatus, MEDIA_STATUSES)
    && (h.progress.Some? ==> GoodProgress(h.progress.value, formats))
    && (forall i :: 0 <= i < |h.progressStages| ==> h.progressStages[i] in HOST_STAGES)
    && IsTime(h.checkedInAt, formats) && IsTime(h.createdAt, formats) && IsTime(h.logsCollectedAt, formats)
    && IsTime(h.logsStartedAt, formats) && IsTime(h.registeredAt, formats) && IsTime(h.stageStartedAt, formats)
    && IsTime(h.stageUpdatedAt, formats) && IsTime(h.statusUpdatedAt, formats) && IsTime(h.updatedAt, formats)
  }

  ghost predicate GoodHosts(hosts: seq<Option<Host>>, formats: Formats) {
    forall i :: 0 <= i < |hosts| && hosts[i].Some? ==> GoodHost(hosts[i].value, formats)
  }

  ghost predicate GoodCluster(c: Cluster, formats: Formats) {
    && GivenUuid(c.id, formats) && c.href.Some? && c.statusInfo.Some? && c.imageInfo.Some?
    && GivenIn(c.kind, CLUSTER_KINDS) && GivenIn(c.status, CLUSTER_STATUSES)
    && IsUuid(NonZero(c.amsSubscriptionID), formats) && IsUuid(NonZero(c.openshiftClusterID), formats)
    && EmptyOrIn(c.cpuArchitecture, CPU_ARCHITECTURES) && EmptyOrIn(c.hyperthreading, HYPERTHREADING_ROLES)
    && EmptyOrIn(c.logsInfo, LOGS_STATES)
    && NilOrIn(c.highAvailabilityMode, HIGH_AVAILABILITY_MODES) && NilOrIn(c.networkType, NETWORK_TYPES)
    && EmptyOrSubnet(c.clusterNetworkCidr) && EmptyOrSubnet(c.machineNetworkCidr) && EmptyOrSubnet(c.serviceNetworkCidr)
    && (c.clusterNetworkHostPrefix == 0 || 1 <= c.clusterNetworkHostPrefix <= 128)
    && GoodHosts(c.hosts, formats)
    && ItemsHold(c.apiVips, formats) && ItemsHold(c.ingressVips, formats)
    && ItemsHold(c.clusterNetworks, formats) && ItemsHold(c.hostNetworks, formats)
    && ItemsHold(c.machineNetworks, formats) && ItemsHold(c.serviceNetworks, formats)
    && ItemsHold(c.monitoredOperators, formats) && ItemsHold(c.operatorBundles, formats)
    && ChildHolds(c.diskEncryption, formats) && ChildHolds(c.ignitionEndpoint, formats)
    && ChildHolds(c.imageInfo, formats) && ChildHolds(c.lastInstallationPreparation, formats)
    && ChildHolds(c.loadBalancer, formats)
    && ChildHolds(c.platform, formats) && ChildHolds(c.progress, formats)
    && IsTime(c.controllerLogsCollectedAt, formats) && IsTime(c.controllerLogsStartedAt, formats)
    && IsTime(c.createdAt, formats) && IsTime(c.installCompletedAt, formats) && IsTime(c.installStartedAt, formats)
    && IsTime(c.statusUpdatedAt, formats) && IsTime(c.updatedAt, formats)
  }

  ghost predicate AllHold(fs: seq<Field>, formats: Formats) {
    forall k :: 0 <= k < |fs| ==> FieldHolds(fs[k], formats)
  }

  lemma AllHoldAppend(a: seq<Field>, b: seq<Field>, formats: Formats)
    ensures AllHold(a + b, formats) <==> AllHold(a, formats) && AllHold(b, formats)
  {
    hide FieldHolds;
    if AllHold(a + b, formats) {
      assert forall k :: 0 <= k < |a| ==> a[k] == (a + b)[k];
      assert forall k :: 0 <= k < |b| ==> b[k] == (a + b)[|a| + k];
    }
  }

  lemma AllHoldOne(f: Field, formats: Formats)
    ensures AllHold([f], formats) <==> FieldHolds(f, formats)
  {
    assert [f][0] == f;
  }

  /** A table of up to twelve fields, field by field. */
  lemma AllHoldListed(fs: seq<Field>, formats: Formats)
    requires |fs| <= 12
    ensures AllHold(fs, formats) <==>
            && (|fs| > 0 ==> FieldHolds(fs[0], formats)) && (|fs| > 1 ==> FieldHolds(fs[1], formats))
            && (|fs| > 2 ==> FieldHolds(fs[2], formats)) && (|fs| > 3 ==> FieldHolds(fs[3], formats))
            && (|fs| > 4 ==> FieldHolds(fs[4], formats)) && (|fs| > 5 ==> FieldHolds(fs[5], formats))
            && (|fs| > 6 ==> FieldHolds(fs[6], formats)) && (|fs| > 7 ==> FieldHolds(fs[7], formats))
            && (|fs| > 8 ==> FieldHolds(fs[8], formats)) && (|fs| > 9 ==> FieldHolds(fs[9], formats))
            && (|fs| > 10 ==> FieldHolds(fs[10], formats)) && (|fs| > 11 ==> FieldHolds(fs[11], formats))
  {
    hide FieldHolds;
  }

  lemma ProgressExact(p: HostProgressInfo, formats: Formats)
    ensures Holds(ProgressNode(p), formats) <==> GoodProgress(p, formats)
  {
    hide HOST_STAGES;
    var fs := ProgressNode(p).fields;
    assert Holds(ProgressNode(p), formats) <==>
           FieldHolds(fs[0], formats) && FieldHolds(fs[1], formats) && FieldHolds(fs[2], formats);
  }

  lemma LeafHoldKinds(formats: Formats)
    ensures forall name: FieldName, v: Time ::
              FieldHolds(Leaf(name, Optional(v, DATE_TIME)), formats) <==> IsTime(v, formats)
    ensures forall name: FieldName, v: Option<string> ::
              FieldHolds(Leaf(name, Optional(v, UUID)), formats) <==> IsUuid(v, formats)
    ensures forall name: FieldName, v: Option<string>, allowed: seq<string> ::
              FieldHolds(Leaf(name, Optional(v, Enum(allowed))), formats) <==> NilOrIn(v, allowed)
    ensures forall name: FieldName, s: string, allowed: seq<string> ::
              FieldHolds(Leaf(name, Optional(NonZero(s), Enum(allowed))), formats) <==> EmptyOrIn(s, allowed)
    ensures forall name: FieldName, s: string, allowed: seq<string> ::
              FieldHolds(Leaf(name, Typed(NonZero(s), Enum(allowed))), formats) <==> EmptyOrIn(s, allowed)
    ensures forall name: FieldName, s: string ::
              FieldHolds(Leaf(name, Optional(NonZero(s), Cidr)), formats) <==> EmptyOrSubnet(s)
    ensures forall name: FieldName, n: int, min: int, max: int ::
              FieldHolds(Leaf(name, Ranged(n, min, max)), formats) <==> n == 0 || min <= n <= max
  {
    hide SubnetPattern.ValidSubnet;
  }

  lemma NeededHoldKinds(formats: Formats)
    ensures forall name: FieldName, v: Option<string> ::
              FieldHolds(Leaf(name, Needed(v, Any)), formats) <==> v.Some?
    ensures forall name: FieldName, v: Option<string> ::
              FieldHolds(Leaf(name, Needed(v, UUID)), formats) <==> GivenUuid(v, formats)
    ensures forall name: FieldName, v: Option<string>, allowed: seq<string> ::
              FieldHolds(Leaf(name, Needed(v, Enum(allowed))), formats) <==> GivenIn(v, allowed)
  {
  }

  lemma ListHoldKinds(formats: Formats)
    ensures forall name: FieldName, c: Option<Node> ::
              FieldHolds(Child(name, false, c), formats) <==> ChildHolds(c, formats)
    ensures forall name: FieldName, c: Option<Node> ::
              FieldHolds(Child(name, true, c), formats) <==> c.Some? && ChildHolds(c, formats)
    ensures forall name: FieldName, elems: seq<Option<Node>> ::
              FieldHolds(Items(name, elems), formats) <==> ItemsHold(elems, formats)
    ensures forall name: FieldName, values: seq<string>, allowed: seq<string> ::
              FieldHolds(Scalars(name, values, Enum(allowed)), formats) <==>
              forall i :: 0 <= i < |values| ==> values[i] in allowed
  {
    hide ItemsHold, ChildHolds;
  }

  lemma BeforeProgressExact(h: Host, formats: Formats)
    ensures AllHold(FieldsBeforeProgress(h), formats) <==>
            && IsTime(h.checkedInAt, formats) && IsUuid(h.clusterID, formats) && IsTime(h.createdAt, formats)
            && h.href.Some? && GivenUuid(h.id, formats)
            && IsUuid(NonZero(h.infraEnvID), formats) && GivenIn(h.kind, HOST_KINDS)
            && IsTime(h.logsCollectedAt, formats) && EmptyOrIn(h.logsInfo, LOGS_STATES)
            && IsTime(h.logsStartedAt, formats) && NilOrIn(h.mediaStatus, MEDIA_STATUSES)
  {
    hide FieldHolds, AllHold, IsTime, IsUuid, GivenUuid, EmptyOrIn, NilOrIn, GivenIn, EmptyOrSubnet, NonZero;
    hide ItemsHold, ChildHolds, UUID, DATE_TIME, HOST_KINDS, LOGS_STATES, MEDIA_STATUSES;
    LeafHoldKinds(formats);
    NeededHoldKinds(formats);
    ListHoldKinds(formats);
    AllHoldListed(FieldsBeforeProgress(h), formats);
  }

  lemma AfterProgressExact(h: Host, formats: Formats)
    ensures AllHold(FieldsAfterProgress(h), formats) <==>
            && (forall i :: 0 <= i < |h.progressStages| ==> h.progressStages[i] in HOST_STAGES)
            && IsTime(h.registeredAt, formats) && EmptyOrIn(h.role, HOST_ROLES) && IsTime(h.stageStartedAt, formats)
            && IsTime(h.stageUpdatedAt, formats) && GivenIn(h.status, HOST_STATUSES) && h.statusInfo.Some?
            && IsTime(h.statusUpdatedAt, formats) && EmptyOrIn(h.suggestedRole, HOST_ROLES)
            && IsTime(h.updatedAt, formats)
  {
    hide FieldHolds, AllHold, IsTime, IsUuid, GivenUuid, EmptyOrIn, NilOrIn, GivenIn, EmptyOrSubnet, NonZero;
    hide ItemsHold, ChildHolds, UUID, DATE_TIME, HOST_STAGES, HOST_ROLES, HOST_STATUSES;
    LeafHoldKinds(formats);
    NeededHoldKinds(formats);
    ListHoldKinds(formats);
    AllHoldListed(FieldsAfterProgress(h), formats);
  }

  lemma HoldsFields(fs: seq<Field>, formats: Formats)
    ensures Holds(Node(fs), formats) <==> AllHold(fs, formats)
  {
  }

  /** The fields of a host ask for exactly what the definition of host in swagger.yaml does. */
  lemma HostExact(h: Host, formats: Formats)
    ensures Holds(HostNode(h), formats) <==> GoodHost(h, formats)
  {
    BeforeProgressExact(h, formats);
    AfterProgressExact(h, formats);
    if h.progress.Some? {
      ProgressExact(h.progress.value, formats);
    }
    hide ProgressNode, GoodProgress, FieldsBeforeProgress, FieldsAfterProgress;
    var a, f, b := FieldsBeforeProgress(h), ProgressField(h), FieldsAfterProgress(h);
    AllHoldAppend(a + [f], b, formats);
    AllHoldAppend(a, [f], formats);
    AllHoldOne(f, formats);
    hide AllHold, IsUuid, IsTime, GivenUuid, EmptyOrIn, NilOrIn, GivenIn;
    assert Holds(HostNode(h), formats) <==> AllHold(a + [f] + b, formats) by { HoldsFields(a + [f] + b, formats); }
  }

  lemma BeforeHostsExact(c: Cluster, formats: Formats)
    ensures AllHold(FieldsBeforeHosts(c), formats) <==>
            && IsUuid(NonZero(c.amsSubscriptionID), formats) && ItemsHold(c.apiVips, formats)
            && EmptyOrSubnet(c.clusterNetworkCidr)
            && (c.clusterNetworkHostPrefix == 0 || 1 <= c.clusterNetworkHostPrefix <= 128)
            && ItemsHold(c.clusterNetworks, formats)
            && IsTime(c.controllerLogsCollectedAt, formats) && IsTime(c.controllerLogsStartedAt, formats)
            && EmptyOrIn(c.cpuArchitecture, CPU_ARCHITECTURES) && IsTime(c.createdAt, formats)
            && ChildHolds(c.diskEncryption, formats) && NilOrIn(c.highAvailabilityMode, HIGH_AVAILABILITY_MODES)
            && ItemsHold(c.hostNetworks, formats)
  {
    hide FieldHolds, AllHold, IsTime, IsUuid, GivenUuid, EmptyOrIn, NilOrIn, GivenIn, EmptyOrSubnet, NonZero;
    hide ItemsHold, ChildHolds, UUID, DATE_TIME, CPU_ARCHITECTURES, HIGH_AVAILABILITY_MODES;
    LeafHoldKinds(formats);
    NeededHoldKinds(formats);
    ListHoldKinds(formats);
    AllHoldListed(FieldsBeforeHosts(c), formats);
  }

  lemma AfterHostsExact(c: Cluster, formats: Formats)
    ensures AllHold(FieldsAfterHosts(c), formats) <==>
            && c.href.Some? && EmptyOrIn(c.hyperthreading, HYPERTHREADING_ROLES) && GivenUuid(c.id, formats)
            && ChildHolds(c.ignitionEndpoint, formats) && c.imageInfo.Some? && ChildHolds(c.imageInfo, formats)
            && ItemsHold(c.ingressVips, formats)
            && IsTime(c.installCompletedAt, formats) && IsTime(c.installStartedAt, formats)
  {
    hide FieldHolds, AllHold, IsTime, IsUuid, GivenUuid, EmptyOrIn, NilOrIn, GivenIn, EmptyOrSubnet, NonZero;
    hide ItemsHold, ChildHolds, UUID, DATE_TIME, HYPERTHREADING_ROLES;
    LeafHoldKinds(formats);
    NeededHoldKinds(formats);
    ListHoldKinds(formats);
    AllHoldListed(FieldsAfterHosts(c), formats);
  }

  lemma MiddleFieldsExact(c: Cluster, formats: Formats)
    ensures AllHold(MiddleFields(c), formats) <==>
            && GivenIn(c.kind, CLUSTER_KINDS) && ChildHolds(c.lastInstallationPreparation, formats)
            && ChildHolds(c.loadBalancer, formats) && EmptyOrIn(c.logsInfo, LOGS_STATES)
            && EmptyOrSubnet(c.machineNetworkCidr) && ItemsHold(c.machineNetworks, formats)
            && ItemsHold(c.monitoredOperators, formats) && NilOrIn(c.networkType, NETWORK_TYPES)
  {
    hide FieldHolds, AllHold, IsTime, IsUuid, GivenUuid, EmptyOrIn, NilOrIn, GivenIn, EmptyOrSubnet, NonZero;
    hide ItemsHold, ChildHolds, UUID, DATE_TIME, CLUSTER_KINDS, LOGS_STATES, NETWORK_TYPES;
    LeafHoldKinds(formats);
    NeededHoldKinds(formats);
    ListHoldKinds(formats);
    AllHoldListed(MiddleFields(c), formats);
  }

  lemma LastFieldsExact(c: Cluster, formats: Formats)
    ensures AllHold(LastFields(c), formats) <==>
            && IsUuid(NonZero(c.openshiftClusterID), formats) && ItemsHold(c.operatorBundles, formats)
            && ChildHolds(c.platform, formats) && ChildHolds(c.progress, formats)
            && EmptyOrSubnet(c.serviceNetworkCidr) && ItemsHold(c.serviceNetworks, formats)
            && GivenIn(c.status, CLUSTER_STATUSES) && c.statusInfo.Some?
            && IsTime(c.statusUpdatedAt, formats) && IsTime(c.updatedAt, formats)
  {
    hide FieldHolds, AllHold, IsTime, IsUuid, GivenUuid, EmptyOrIn, NilOrIn, GivenIn, EmptyOrSubnet, NonZero;
    hide ItemsHold, ChildHolds, UUID, DATE_TIME, CLUSTER_STATUSES;
    LeafHoldKinds(formats);
    NeededHoldKinds(formats);
    ListHoldKinds(formats);
    AllHoldListed(LastFields(c), formats);
  }

  lemma HostsExact(c: Cluster, formats: Formats)
    ensures FieldHolds(HostsField(c), formats) <==> GoodHosts(c.hosts, formats)
  {
    hide Holds, HostNode, GoodHost;
    forall h: Host
      ensures Holds(HostNode(h), formats) <==> GoodHost(h, formats)
    {
      HostExact(h, formats);
    }
    var elems := HostNodes(c.hosts);
    assert forall i :: 0 <= i < |c.hosts| && c.hosts[i].Some? ==> elems[i] == Some(HostNode(c.hosts[i].value));
    assert forall i :: 0 <= i < |elems| ==> elems[i].Some? == c.hosts[i].Some?;
    assert forall i :: 0 <= i < |elems| ==> (ChildHolds(elems[i], formats) <==>
                                             c.hosts[i].Some? ==> GoodHost(c.hosts[i].value, formats));
  }

  /** The fields of a cluster ask for exactly what the definition of cluster in swagger.yaml does. */
  lemma ClusterExact(c: Cluster, formats: Formats)
    ensures Holds(ClusterNode(c), formats) <==> GoodCluster(c, formats)
  {
    BeforeHostsExact(c, formats);
    HostsExact(c, formats);
    AfterHostsExact(c, formats);
    MiddleFieldsExact(c, formats);
    LastFieldsExact(c, formats);
    hide FieldsBeforeHosts, FieldsAfterHosts, MiddleFields, LastFields, FieldHolds, GoodHosts, ItemsHold, ChildHolds;
    var a, f, b, d, e := FieldsBeforeHosts(c), HostsField(c), FieldsAfterHosts(c), MiddleFields(c), LastFields(c);
    AllHoldAppend(a + [f] + b + d, e, formats);
    AllHoldAppend(a + [f] + b, d, formats);
    AllHoldAppend(a + [f], b, formats);
    AllHoldAppend(a, [f], formats);
    AllHoldOne(f, formats);
    hide AllHold, IsUuid, IsTime, GivenUuid, EmptyOrIn, NilOrIn, GivenIn, EmptyOrSubnet;
    assert Holds(ClusterNode(c), formats) <==> AllHold(a + [f] + b + d + e, formats) by {
      HoldsFields(a + [f] + b + d + e, formats);
    }
  }

  // ---------------------------------------------------------------- what is reported about a stage

  /** A stage is bad: set, and not one of the listed values. */
  predicate BadStage(h: Host) {
    h.progress.Some? && h.progress.value.currentStage != "" && h.progress.value.currentStage !in HOST_STAGES
  }

  lemma StageVisible(p: HostProgressInfo, formats: Formats)
    ensures Visible(ProgressNode(p), ["current_stage"], EnumFail, formats) <==>
            p.currentStage != "" && p.currentStage !in HOST_STAGES
  {
    hide HOST_STAGES;
    var n, path := ProgressNode(p), ["current_stage"];
    assert n.fields[0].name == "current_stage";
    assert VisibleField(n.fields[0], path, EnumFail, formats) <==>
           p.currentStage != "" && p.currentStage !in HOST_STAGES;
  }

  /** Only the field at `k` has the name. */
  ghost predicate OnlyAt(fs: seq<Field>, k: nat, name: string) {
    k < |fs| && fs[k].name == name && forall j :: 0 <= j < |fs| && fs[j].name == name ==> j == k
  }

  lemma VisibleOnlyAt(n: Node, k: nat, p: seq<string>, t: Fault, formats: Formats)
    requires p != [] && OnlyAt(n.fields, k, p[0])
    ensures Visible(n, p, t, formats) <==> VisibleField(n.fields[k], p, t, formats)
  {
  }

  lemma ProgressIsAt11(h: Host)
    ensures OnlyAt(HostNode(h).fields, 11, "progress") && HostNode(h).fields[11] == ProgressField(h)
  {
  }

  lemma HostsAreAt12(c: Cluster)
    ensures OnlyAt(ClusterNode(c).fields, 12, "hosts") && ClusterNode(c).fields[12] == HostsField(c)
  {
  }

  lemma ProgressVisible(h: Host, formats: Formats)
    ensures Visible(HostNode(h), ["progress", "current_stage"], EnumFail, formats) <==> BadStage(h)
  {
    hide HOST_STAGES, HostNode, ProgressNode, Visible;
    var path := ["progress", "current_stage"];
    assert path[1..] == ["current_stage"];
    ProgressIsAt11(h);
    VisibleOnlyAt(HostNode(h), 11, path, EnumFail, formats);
    if h.progress.Some? {
      StageVisible(h.progress.value, formats);
    }
  }

  lemma BadStageFails(h: Host, formats: Formats)
    requires BadStage(h)
    ensures !Holds(HostNode(h), formats)
  {
    hide HostNode, Visible, Holds, NodeError, BadStage, Dots;
    var p := ["progress", "current_stage"];
    ProgressVisible(h, formats);
    assert GoodPath(p);
    PathReported(HostNode(h), p, EnumFail, formats);
    NodeExact(HostNode(h), formats);
  }

  lemma FormatDecInjective(i: nat, j: nat)
    ensures FormatDec(i) == FormatDec(j) <==> i == j
  {
    FormatDecValue(i);
    FormatDecValue(j);
  }

  /** The name of the current stage of host `i`. */
  ghost function StagePath(i: nat): (p: seq<string>)
    ensures GoodPath(p)
  {
    IndexIsGood(i);
    ["hosts", FormatDec(i), "progress", "current_stage"]
  }

  /** The reported name of the current stage of host `i`. */
  function StageName(i: nat): string {
    "hosts" + "." + FormatDec(i) + "." + "progress" + "." + "current_stage"
  }

  lemma FourSegments(a: string, b: string, c: string, d: string)
    requires GoodPath([a, b, c, d])
    ensures Dots([a, b, c, d]) == a + "." + b + "." + c + "." + d
  {
    var p := [a, b, c, d];
    assert p[1..] == [b, c, d] && p[1..][1..] == [c, d] && p[1..][1..][1..] == [d];
    assert Dots([c, d]) == c + "." + d;
    assert Dots([b, c, d]) == b + "." + (c + "." + d);
    hide Dots;
    assert a + "." + (b + "." + (c + "." + d)) == a + "." + b + "." + c + "." + d;
  }

  lemma StagePathText(i: nat)
    ensures Dots(StagePath(i)) == StageName(i)
  {
    hide FormatDec, Dots, GoodPath;
    assert GoodPath(StagePath(i));
    FourSegments("hosts", FormatDec(i), "progress", "current_stage");
  }

  lemma StagePathVisible(c: Cluster, i: nat, formats: Formats)
    ensures Visible(ClusterNode(c), StagePath(i), EnumFail, formats) <==>
            && i < |c.hosts| && c.hosts[i].Some? && BadStage(c.hosts[i].value)
            && forall j :: 0 <= j < i && c.hosts[j].Some? ==> Holds(HostNode(c.hosts[j].value), formats)
  {
    hide ClusterNode, HostNode, Visible, Holds, BadStage, FormatDec;
    var f, p := HostsField(c), StagePath(i);
    HostsAreAt12(c);
    VisibleOnlyAt(ClusterNode(c), 12, p, EnumFail, formats);
    assert p[2..] == ["progress", "current_stage"];
    forall k: nat
      ensures FormatDec(i) == FormatDec(k) <==> i == k
    {
      FormatDecInjective(i, k);
    }
    if i < |c.hosts| && c.hosts[i].Some? {
      ProgressVisible(c.hosts[i].value, formats);
      if BadStage(c.hosts[i].value) {
        BadStageFails(c.hosts[i].value, formats);
      }
    }
    assert forall j :: 0 <= j < |c.hosts| && c.hosts[j].Some? ==> f.elems[j] == Some(HostNode(c.hosts[j].value));
    assert FirstBad(f, i, formats) <==>
           && i < |c.hosts| && c.hosts[i].Some? && !Holds(HostNode(c.hosts[i].value), formats)
           && forall j :: 0 <= j < i && c.hosts[j].Some? ==> Holds(HostNode(c.hosts[j].value), formats);
    assert VisibleField(f, p, EnumFail, formats) <==>
           FirstBad(f, i, formats) && Visible(f.elems[i].value, p[2..], EnumFail, formats);
  }

  /** The stage of host `i` is reported, under its dotted name, exactly when it is bad and every
      earlier host satisfies every constraint. */
  lemma StageReported(c: Cluster, i: nat, formats: Formats)
    ensures Reported(NodeError(ClusterNode(c), formats), StageName(i), EnumFail) <==>
            && i < |c.hosts| && c.hosts[i].Some? && BadStage(c.hosts[i].value)
            && forall j :: 0 <= j < i && c.hosts[j].Some? ==> GoodHost(c.hosts[j].value, formats)
  {
    hide GoodHost, ClusterNode, HostNode, Visible, Holds, BadStage, StageName, NodeError, Dots, StagePath;
    StagePathText(i);
    PathReported(ClusterNode(c), StagePath(i), EnumFail, formats);
    StagePathVisible(c, i, formats);
    forall h: Host
      ensures Holds(HostNode(h), formats) <==> GoodHost(h, formats)
    {
      HostExact(h, formats);
    }
  }
}
