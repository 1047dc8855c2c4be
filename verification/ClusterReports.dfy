/** Which names and faults the validators of progress, host and cluster report, field by field. */
module ClusterReports {
  import opened Wrappers
  import opened Numerals
  import opened Validation
  import opened Reporting
  import opened FieldReporting
  import opened Cluster
  import opened ClusterParts
  import IPPattern
  import SubnetPattern

  // ---------------------------------------------------------------- one field

  ghost predicate BadFormat(
      name: string, v: Option<string>, format: string, m: string, t: Fault, formats: Formats)
  {
    m == name && t == InvalidType && v.Some? && !formats(format, v.value)
  }

  ghost predicate BadTime(name: string, v: Time, m: string, t: Fault, formats: Formats) {
    BadFormat(name, v, "date-time", m, t, formats)
  }

  ghost predicate BadUuid(name: string, v: Option<string>, m: string, t: Fault, formats: Formats) {
    BadFormat(name, v, "uuid", m, t, formats)
  }

  ghost predicate Missing(name: string, v: Option<string>, m: string, t: Fault) {
    m == name && t == RequiredFail && v.None?
  }

  ghost predicate Unlisted(name: string, v: Option<string>, allowed: seq<string>, m: string, t: Fault) {
    m == name && t == EnumFail && v.Some? && v.value !in allowed
  }

  ghost predicate BadSubnet(name: string, v: Option<string>, m: string, t: Fault) {
    m == name && t == PatternFail && v.Some? && !SubnetPattern.ValidSubnet(v.value)
  }

  /** Zero is skipped. */
  ghost predicate OutOfRange(name: string, n: int, min: int, max: int, m: string, t: Fault) {
    m == name && n != 0 && ((t == MinFail && n < min) || (t == MaxFail && min <= n && n > max))
  }

  ghost predicate NoChild(name: string, c: Option<Node>, m: string, t: Fault) {
    m == name && t == RequiredFail && c.None?
  }

  ghost predicate BadChild(name: string, c: Option<Node>, m: string, t: Fault, formats: Formats) {
    c.Some? && exists n :: Reported(NodeError(c.value, formats), n, t) && m == name + "." + n
  }

  /** The errors of the first bad element. */
  ghost predicate BadItem(name: string, elems: seq<Option<Node>>, m: string, t: Fault, formats: Formats) {
    exists i: nat, n ::
      && i < |elems| && elems[i].Some? && Reported(NodeError(elems[i].value, formats), n, t)
      && ItemsHold(elems[..i], formats)
      && m == name + "." + FormatDec(i) + "." + n
  }

  /** The first value that is not listed. */
  ghost predicate UnlistedValue(name: string, values: seq<string>, allowed: seq<string>, m: string, t: Fault) {
    exists i: nat ::
      && i < |values| && values[i] !in allowed && t == EnumFail
      && (forall j :: 0 <= j < i ==> values[j] in allowed)
      && m == name + "." + FormatDec(i)
  }

  lemma LeafKinds(m: string, t: Fault, formats: Formats)
    ensures forall name: FieldName, v: Time ::
              ReportedBy(Leaf(name, Optional(v, DATE_TIME)), m, t, formats) <==> BadTime(name, v, m, t, formats)
    ensures forall name: FieldName, v: Option<string> ::
              ReportedBy(Leaf(name, Optional(v, UUID)), m, t, formats) <==> BadUuid(name, v, m, t, formats)
    ensures forall name: FieldName, v: Option<string>, allowed: seq<string> ::
              ReportedBy(Leaf(name, Optional(v, Enum(allowed))), m, t, formats) <==> Unlisted(name, v, allowed, m, t)
    ensures forall name: FieldName, v: Option<string>, allowed: seq<string> ::
              ReportedBy(Leaf(name, Typed(v, Enum(allowed))), m, t, formats) <==> Unlisted(name, v, allowed, m, t)
    ensures forall name: FieldName, v: Option<string> ::
              ReportedBy(Leaf(name, Optional(v, Cidr)), m, t, formats) <==> BadSubnet(name, v, m, t)
    ensures forall name: FieldName, n: int, min: int, max: int ::
              ReportedBy(Leaf(name, Ranged(n, min, max)), m, t, formats) <==> OutOfRange(name, n, min, max, m, t)
  {
    hide SubnetPattern.ValidSubnet;
  }

  lemma NeededKinds(m: string, t: Fault, formats: Formats)
    ensures forall name: FieldName, v: Option<string> ::
              ReportedBy(Leaf(name, Needed(v, Any)), m, t, formats) <==> Missing(name, v, m, t)
    ensures forall name: FieldName, v: Option<string> ::
              ReportedBy(Leaf(name, Needed(v, UUID)), m, t, formats) <==>
              Missing(name, v, m, t) || BadUuid(name, v, m, t, formats)
    ensures forall name: FieldName, v: Option<string>, allowed: seq<string> ::
              ReportedBy(Leaf(name, Needed(v, Enum(allowed))), m, t, formats) <==>
              Missing(name, v, m, t) || Unlisted(name, v, allowed, m, t)
  {
  }

  lemma ChildKinds(name: FieldName, c: Option<Node>, m: string, t: Fault, formats: Formats)
    ensures ReportedBy(Child(name, false, c), m, t, formats) <==> BadChild(name, c, m, t, formats)
    ensures ReportedBy(Child(name, true, c), m, t, formats) <==>
            NoChild(name, c, m, t) || BadChild(name, c, m, t, formats)
  {
    hide NodeError, Reports;
  }

  lemma ItemsKind(name: FieldName, elems: seq<Option<Node>>, m: string, t: Fault, formats: Formats)
    ensures ReportedBy(Items(name, elems), m, t, formats) <==> BadItem(name, elems, m, t, formats)
  {
    hide NodeError, Reports, Holds, FormatDec;
    var f := Items(name, elems);
    forall i: nat | i < |elems| && elems[i].Some?
      ensures NodeError(elems[i].value, formats).None? <==> Holds(elems[i].value, formats)
      ensures ItemsHold(elems[..i], formats) <==>
              forall j :: 0 <= j < i && elems[j].Some? ==> Holds(elems[j].value, formats)
    {
      NodeExact(elems[i].value, formats);
      ItemsMeaning(elems[..i], formats);
    }
  }

  lemma ScalarsKind(
      name: FieldName, values: seq<string>, allowed: seq<string>, m: string, t: Fault, formats: Formats)
    ensures ReportedBy(Scalars(name, values, Enum(allowed)), m, t, formats) <==>
            UnlistedValue(name, values, allowed, m, t)
  {
    hide FormatDec;
  }

  lemma ListKinds(m: string, t: Fault, formats: Formats)
    ensures forall name: FieldName, c: Option<Node> ::
              ReportedBy(Child(name, false, c), m, t, formats) <==> BadChild(name, c, m, t, formats)
    ensures forall name: FieldName, c: Option<Node> ::
              ReportedBy(Child(name, true, c), m, t, formats) <==>
              NoChild(name, c, m, t) || BadChild(name, c, m, t, formats)
    ensures forall name: FieldName, elems: seq<Option<Node>> ::
              ReportedBy(Items(name, elems), m, t, formats) <==> BadItem(name, elems, m, t, formats)
    ensures forall name: FieldName, values: seq<string>, allowed: seq<string> ::
              ReportedBy(Scalars(name, values, Enum(allowed)), m, t, formats) <==>
              UnlistedValue(name, values, allowed, m, t)
  {
    hide ReportedBy, BadChild, NoChild, BadItem, UnlistedValue;
    forall name: FieldName, c: Option<Node>
      ensures ReportedBy(Child(name, false, c), m, t, formats) <==> BadChild(name, c, m, t, formats)
      ensures ReportedBy(Child(name, true, c), m, t, formats) <==>
              NoChild(name, c, m, t) || BadChild(name, c, m, t, formats)
    {
      ChildKinds(name, c, m, t, formats);
    }
    forall name: FieldName, elems: seq<Option<Node>>
      ensures ReportedBy(Items(name, elems), m, t, formats) <==> BadItem(name, elems, m, t, formats)
    {
      ItemsKind(name, elems, m, t, formats);
    }
    forall name: FieldName, values: seq<string>, allowed: seq<string>
      ensures ReportedBy(Scalars(name, values, Enum(allowed)), m, t, formats) <==>
              UnlistedValue(name, values, allowed, m, t)
    {
      ScalarsKind(name, values, allowed, m, t, formats);
    }
  }

  // ---------------------------------------------------------------- tables of fields

  lemma AnyAppend(a: seq<Field>, b: seq<Field>, m: string, t: Fault, formats: Formats)
    ensures ReportedByAny(a + b, m, t, formats) <==>
            ReportedByAny(a, m, t, formats) || ReportedByAny(b, m, t, formats)
  {
    hide ReportedBy;
    var c := a + b;
    assert forall k :: 0 <= k < |a| ==> c[k] == a[k];
    assert forall k :: 0 <= k < |b| ==> c[|a| + k] == b[k];
    assert forall k :: |a| <= k < |c| ==> c[k] == b[k - |a|];
  }

  lemma AnyOne(f: Field, m: string, t: Fault, formats: Formats)
    ensures ReportedByAny([f], m, t, formats) <==> ReportedBy(f, m, t, formats)
  {
    hide ReportedBy;
    assert [f][0] == f;
  }

  /** A table of up to twelve fields, field by field. */
  lemma AnyListed(fs: seq<Field>, m: string, t: Fault, formats: Formats)
    requires |fs| <= 12
    ensures ReportedByAny(fs, m, t, formats) <==>
            || (|fs| > 0 && ReportedBy(fs[0], m, t, formats))
            || (|fs| > 1 && ReportedBy(fs[1], m, t, formats))
            || (|fs| > 2 && ReportedBy(fs[2], m, t, formats))
            || (|fs| > 3 && ReportedBy(fs[3], m, t, formats))
            || (|fs| > 4 && ReportedBy(fs[4], m, t, formats))
            || (|fs| > 5 && ReportedBy(fs[5], m, t, formats))
            || (|fs| > 6 && ReportedBy(fs[6], m, t, formats))
            || (|fs| > 7 && ReportedBy(fs[7], m, t, formats))
            || (|fs| > 8 && ReportedBy(fs[8], m, t, formats))
            || (|fs| > 9 && ReportedBy(fs[9], m, t, formats))
            || (|fs| > 10 && ReportedBy(fs[10], m, t, formats))
            || (|fs| > 11 && ReportedBy(fs[11], m, t, formats))
  {
    hide ReportedBy;
  }

  // ---------------------------------------------------------------- progress and host

  /** What a progress reports. */
  ghost predicate ProgressReports(p: HostProgressInfo, m: string, t: Fault, formats: Formats) {
    || Unlisted("current_stage", NonZero(p.currentStage), HOST_STAGES, m, t)
    || BadTime("stage_started_at", p.stageStartedAt, m, t, formats)
    || BadTime("stage_updated_at", p.stageUpdatedAt, m, t, formats)
  }

  lemma ProgressReported(p: HostProgressInfo, m: string, t: Fault, formats: Formats)
    ensures Reported(NodeError(ProgressNode(p), formats), m, t) <==> ProgressReports(p, m, t, formats)
  {
    hide ReportedBy, ReportedByAny, BadTime, BadUuid, Unlisted, UUID, DATE_TIME, HOST_STAGES, NodeError, Reports;
    NodeReportsFields(ProgressNode(p), m, t, formats);
    LeafKinds(m, t, formats);
    AnyListed(ProgressNode(p).fields, m, t, formats);
  }

  /** What the fields before the progress report. */
  ghost predicate BeforeProgressReports(h: Host, m: string, t: Fault, formats: Formats) {
    || BadTime("checked_in_at", h.checkedInAt, m, t, formats)
    || BadUuid("cluster_id", h.clusterID, m, t, formats)
    || BadTime("created_at", h.createdAt, m, t, formats)
    || Missing("href", h.href, m, t)
    || Missing("id", h.id, m, t)
    || BadUuid("id", h.id, m, t, formats)
    || BadUuid("infra_env_id", NonZero(h.infraEnvID), m, t, formats)
    || Missing("kind", h.kind, m, t)
    || Unlisted("kind", h.kind, HOST_KINDS, m, t)
    || BadTime("logs_collected_at", h.logsCollectedAt, m, t, formats)
    || Unlisted("logs_info", NonZero(h.logsInfo), LOGS_STATES, m, t)
    || BadTime("logs_started_at", h.logsStartedAt, m, t, formats)
    || Unlisted("media_status", h.mediaStatus, MEDIA_STATUSES, m, t)
  }

  lemma BeforeProgressReported(h: Host, m: string, t: Fault, formats: Formats)
    ensures ReportedByAny(FieldsBeforeProgress(h), m, t, formats) <==> BeforeProgressReports(h, m, t, formats)
  {
    hide ReportedBy, ReportedByAny, BadTime, BadUuid, Missing, Unlisted, BadSubnet, OutOfRange;
    hide NoChild, BadChild, BadItem, UnlistedValue, UUID, DATE_TIME;
    hide HOST_KINDS, LOGS_STATES, MEDIA_STATUSES;
    LeafKinds(m, t, formats);
    NeededKinds(m, t, formats);
    AnyListed(FieldsBeforeProgress(h), m, t, formats);
  }

  /** What the fields after the progress report. */
  ghost predicate AfterProgressReports(h: Host, m: string, t: Fault, formats: Formats) {
    || UnlistedValue("progress_stages", h.progressStages, HOST_STAGES, m, t)
    || BadTime("registered_at", h.registeredAt, m, t, formats)
    || Unlisted("role", NonZero(h.role), HOST_ROLES, m, t)
    || BadTime("stage_started_at", h.stageStartedAt, m, t, formats)
    || BadTime("stage_updated_at", h.stageUpdatedAt, m, t, formats)
    || Missing("status", h.status, m, t)
    || Unlisted("status", h.status, HOST_STATUSES, m, t)
    || Missing("status_info", h.statusInfo, m, t)
    || BadTime("status_updated_at", h.statusUpdatedAt, m, t, formats)
    || Unlisted("suggested_role", NonZero(h.suggestedRole), HOST_ROLES, m, t)
    || BadTime("updated_at", h.updatedAt, m, t, formats)
  }

  lemma AfterProgressReported(h: Host, m: string, t: Fault, formats: Formats)
    ensures ReportedByAny(FieldsAfterProgress(h), m, t, formats) <==> AfterProgressReports(h, m, t, formats)
  {
    hide ReportedBy, ReportedByAny, BadTime, BadUuid, Missing, Unlisted, BadSubnet, OutOfRange;
    hide NoChild, BadChild, BadItem, UnlistedValue, UUID, DATE_TIME;
    hide HOST_ROLES, HOST_STAGES, HOST_STATUSES;
    LeafKinds(m, t, formats);
    NeededKinds(m, t, formats);
    ListKinds(m, t, formats);
    AnyListed(FieldsAfterProgress(h), m, t, formats);
  }

  /** What the progress of a host reports, under its name. */
  ghost predicate NestedProgressReports(h: Host, m: string, t: Fault, formats: Formats) {
    h.progress.Some? && exists n :: ProgressReports(h.progress.value, n, t, formats) && m == "progress" + "." + n
  }

  lemma NestedProgressReported(h: Host, m: string, t: Fault, formats: Formats)
    ensures ReportedBy(ProgressField(h), m, t, formats) <==> NestedProgressReports(h, m, t, formats)
  {
    hide ProgressReports, ProgressNode, NodeError, Reports;
    if h.progress.Some? {
      forall n
        ensures Reported(NodeError(ProgressNode(h.progress.value), formats), n, t) <==>
                ProgressReports(h.progress.value, n, t, formats)
      {
        ProgressReported(h.progress.value, n, t, formats);
      }
    }
  }

  /** What a host reports. */
  ghost predicate HostReports(h: Host, m: string, t: Fault, formats: Formats) {
    || BeforeProgressReports(h, m, t, formats)
    || NestedProgressReports(h, m, t, formats)
    || AfterProgressReports(h, m, t, formats)
  }

  /** A host reports exactly the names and faults of its bad fields. */
  lemma HostReported(h: Host, m: string, t: Fault, formats: Formats)
    ensures Reported(NodeError(HostNode(h), formats), m, t) <==> HostReports(h, m, t, formats)
  {
    hide FieldsBeforeProgress, FieldsAfterProgress, ProgressField, ReportedByAny, ReportedBy, NodeError, Reports;
    hide BeforeProgressReports, NestedProgressReports, AfterProgressReports;
    var a, f, b := FieldsBeforeProgress(h), ProgressField(h), FieldsAfterProgress(h);
    NodeReportsFields(HostNode(h), m, t, formats);
    AnyAppend(a + [f], b, m, t, formats);
    AnyAppend(a, [f], m, t, formats);
    AnyOne(f, m, t, formats);
    BeforeProgressReported(h, m, t, formats);
    NestedProgressReported(h, m, t, formats);
    AfterProgressReported(h, m, t, formats);
  }

  // ---------------------------------------------------------------- cluster

  /** What the fields before the hosts report. */
  ghost predicate BeforeHostsReports(c: Cluster, m: string, t: Fault, formats: Formats) {
    || BadUuid("ams_subscription_id", NonZero(c.amsSubscriptionID), m, t, formats)
    || BadItem("api_vips", c.apiVips, m, t, formats)
    || BadSubnet("cluster_network_cidr", NonZero(c.clusterNetworkCidr), m, t)
    || OutOfRange("cluster_network_host_prefix", c.clusterNetworkHostPrefix, 1, 128, m, t)
    || BadItem("cluster_networks", c.clusterNetworks, m, t, formats)
    || BadTime("controller_logs_collected_at", c.controllerLogsCollectedAt, m, t, formats)
    || BadTime("controller_logs_started_at", c.controllerLogsStartedAt, m, t, formats)
    || Unlisted("cpu_architecture", NonZero(c.cpuArchitecture), CPU_ARCHITECTURES, m, t)
    || BadTime("created_at", c.createdAt, m, t, formats)
    || BadChild("disk_encryption", c.diskEncryption, m, t, formats)
    || Unlisted("high_availability_mode", c.highAvailabilityMode, HIGH_AVAILABILITY_MODES, m, t)
    || BadItem("host_networks", c.hostNetworks, m, t, formats)
  }

  lemma BeforeHostsReported(c: Cluster, m: string, t: Fault, formats: Formats)
    ensures ReportedByAny(FieldsBeforeHosts(c), m, t, formats) <==> BeforeHostsReports(c, m, t, formats)
  {
    hide ReportedBy, ReportedByAny, BadTime, BadUuid, Missing, Unlisted, BadSubnet, OutOfRange;
    hide NoChild, BadChild, BadItem, UnlistedValue, UUID, DATE_TIME;
    hide CPU_ARCHITECTURES, HIGH_AVAILABILITY_MODES;
    LeafKinds(m, t, formats);
    ListKinds(m, t, formats);
    AnyListed(FieldsBeforeHosts(c), m, t, formats);
  }

  /** What the fields after the hosts report. */
  ghost predicate AfterHostsReports(c: Cluster, m: string, t: Fault, formats: Formats) {
    || Missing("href", c.href, m, t)
    || Unlisted("hyperthreading", NonZero(c.hyperthreading), HYPERTHREADING_ROLES, m, t)
    || Missing("id", c.id, m, t)
    || BadUuid("id", c.id, m, t, formats)
    || BadChild("ignition_endpoint", c.ignitionEndpoint, m, t, formats)
    || NoChild("image_info", c.imageInfo, m, t)
    || BadChild("image_info", c.imageInfo, m, t, formats)
    || BadItem("ingress_vips", c.ingressVips, m, t, formats)
    || BadTime("install_completed_at", c.installCompletedAt, m, t, formats)
    || BadTime("install_started_at", c.installStartedAt, m, t, formats)
  }

  lemma AfterHostsReported(c: Cluster, m: string, t: Fault, formats: Formats)
    ensures ReportedByAny(FieldsAfterHosts(c), m, t, formats) <==> AfterHostsReports(c, m, t, formats)
  {
    hide ReportedBy, ReportedByAny, BadTime, BadUuid, Missing, Unlisted, BadSubnet, OutOfRange;
    hide NoChild, BadChild, BadItem, UnlistedValue, UUID, DATE_TIME;
    hide HYPERTHREADING_ROLES;
    LeafKinds(m, t, formats);
    NeededKinds(m, t, formats);
    ListKinds(m, t, formats);
    AnyListed(FieldsAfterHosts(c), m, t, formats);
  }

  /** What the fields after those report. */
  ghost predicate MiddleReports(c: Cluster, m: string, t: Fault, formats: Formats) {
    || Missing("kind", c.kind, m, t)
    || Unlisted("kind", c.kind, CLUSTER_KINDS, m, t)
    || BadChild("last-installation-preparation", c.lastInstallationPreparation, m, t, formats)
    || BadChild("load_balancer", c.loadBalancer, m, t, formats)
    || Unlisted("logs_info", NonZero(c.logsInfo), LOGS_STATES, m, t)
    || BadSubnet("machine_network_cidr", NonZero(c.machineNetworkCidr), m, t)
    || BadItem("machine_networks", c.machineNetworks, m, t, formats)
    || BadItem("monitored_operators", c.monitoredOperators, m, t, formats)
    || Unlisted("network_type", c.networkType, NETWORK_TYPES, m, t)
  }

  lemma MiddleReported(c: Cluster, m: string, t: Fault, formats: Formats)
    ensures ReportedByAny(MiddleFields(c), m, t, formats) <==> MiddleReports(c, m, t, formats)
  {
    hide ReportedBy, ReportedByAny, BadTime, BadUuid, Missing, Unlisted, BadSubnet, OutOfRange;
    hide NoChild, BadChild, BadItem, UnlistedValue, UUID, DATE_TIME;
    hide CLUSTER_KINDS, LOGS_STATES, NETWORK_TYPES;
    LeafKinds(m, t, formats);
    NeededKinds(m, t, formats);
    ListKinds(m, t, formats);
    AnyListed(MiddleFields(c), m, t, formats);
  }

  /** What the remaining fields report. */
  ghost predicate LastReports(c: Cluster, m: string, t: Fault, formats: Formats) {
    || BadUuid("openshift_cluster_id", NonZero(c.openshiftClusterID), m, t, formats)
    || BadItem("operator_bundles", c.operatorBundles, m, t, formats)
    || BadChild("platform", c.platform, m, t, formats)
    || BadChild("progress", c.progress, m, t, formats)
    || BadSubnet("service_network_cidr", NonZero(c.serviceNetworkCidr), m, t)
    || BadItem("service_networks", c.serviceNetworks, m, t, formats)
    || Missing("status", c.status, m, t)
    || Unlisted("status", c.status, CLUSTER_STATUSES, m, t)
    || Missing("status_info", c.statusInfo, m, t)
    || BadTime("status_updated_at", c.statusUpdatedAt, m, t, formats)
    || BadTime("updated_at", c.updatedAt, m, t, formats)
  }

  lemma LastReported(c: Cluster, m: string, t: Fault, formats: Formats)
    ensures ReportedByAny(LastFields(c), m, t, formats) <==> LastReports(c, m, t, formats)
  {
    hide ReportedBy, ReportedByAny, BadTime, BadUuid, Missing, Unlisted, BadSubnet, OutOfRange;
    hide NoChild, BadChild, BadItem, UnlistedValue, UUID, DATE_TIME;
    hide CLUSTER_STATUSES;
    LeafKinds(m, t, formats);
    NeededKinds(m, t, formats);
    ListKinds(m, t, formats);
    AnyListed(LastFields(c), m, t, formats);
  }

  /** What the first bad host reports, under its index. */
  ghost predicate NestedHostReports(c: Cluster, m: string, t: Fault, formats: Formats) {
    exists i: nat, n ::
      && i < |c.hosts| && c.hosts[i].Some? && HostReports(c.hosts[i].value, n, t, formats)
      && GoodHosts(c.hosts[..i], formats)
      && m == "hosts" + "." + FormatDec(i) + "." + n
  }

  lemma FirstHostsHold(c: Cluster, i: nat, formats: Formats)
    requires i <= |c.hosts|
    ensures ItemsHold(HostNodes(c.hosts)[..i], formats) <==> GoodHosts(c.hosts[..i], formats)
  {
    hide HostNode, Holds, GoodHost;
    ItemsMeaning(HostNodes(c.hosts)[..i], formats);
    forall h: Host
      ensures Holds(HostNode(h), formats) <==> GoodHost(h, formats)
    {
      HostExact(h, formats);
    }
    assert forall j :: 0 <= j < i && c.hosts[j].Some? ==> HostNodes(c.hosts)[j] == Some(HostNode(c.hosts[j].value));
    assert forall j :: 0 <= j < i ==> HostNodes(c.hosts)[j].Some? == c.hosts[j].Some?;
  }

  lemma NestedHostReported(c: Cluster, m: string, t: Fault, formats: Formats)
    ensures ReportedBy(HostsField(c), m, t, formats) <==> NestedHostReports(c, m, t, formats)
  {
    hide HostReports, HostNode, NodeError, Reports, ReportedBy, Holds, GoodHost, FormatDec;
    var elems := HostNodes(c.hosts);
    ItemsKind(HOSTS, elems, m, t, formats);
    forall i: nat, n | i < |c.hosts| && c.hosts[i].Some?
      ensures elems[i] == Some(HostNode(c.hosts[i].value))
      ensures Reported(NodeError(HostNode(c.hosts[i].value), formats), n, t) <==>
              HostReports(c.hosts[i].value, n, t, formats)
    {
      HostReported(c.hosts[i].value, n, t, formats);
    }
    forall i: nat | i <= |c.hosts|
      ensures ItemsHold(elems[..i], formats) <==> GoodHosts(c.hosts[..i], formats)
    {
      FirstHostsHold(c, i, formats);
    }
  }

  /** What a cluster reports. */
  ghost predicate ClusterReports(c: Cluster, m: string, t: Fault, formats: Formats) {
    || BeforeHostsReports(c, m, t, formats)
    || NestedHostReports(c, m, t, formats)
    || AfterHostsReports(c, m, t, formats)
    || MiddleReports(c, m, t, formats)
    || LastReports(c, m, t, formats)
  }

  /** A cluster reports exactly the names and faults of its bad fields. */
  lemma ClusterReported(c: Cluster, m: string, t: Fault, formats: Formats)
    ensures Reported(NodeError(ClusterNode(c), formats), m, t) <==> ClusterReports(c, m, t, formats)
  {
    hide FieldsBeforeHosts, FieldsAfterHosts, MiddleFields, LastFields, HostsField, ReportedByAny, ReportedBy;
    hide NodeError, Reports, BeforeHostsReports, NestedHostReports, AfterHostsReports, MiddleReports, LastReports;
    var a, f, b, d, e := FieldsBeforeHosts(c), HostsField(c), FieldsAfterHosts(c), MiddleFields(c), LastFields(c);
    NodeReportsFields(ClusterNode(c), m, t, formats);
    AnyAppend(a + [f] + b + d, e, m, t, formats);
    AnyAppend(a + [f] + b, d, m, t, formats);
    AnyAppend(a + [f], b, m, t, formats);
    AnyAppend(a, [f], m, t, formats);
    AnyOne(f, m, t, formats);
    BeforeHostsReported(c, m, t, formats);
    NestedHostReported(c, m, t, formats);
    AfterHostsReported(c, m, t, formats);
    MiddleReported(c, m, t, formats);
    LastReported(c, m, t, formats);
  }

  // ---------------------------------------------------------------- virtual addresses

  /** What a virtual address reports. */
  ghost predicate VipReports(v: Vip, m: string, t: Fault, formats: Formats) {
    || BadUuid("cluster_id", NonZero(v.clusterID), m, t, formats)
    || (m == "ip" && t == PatternFail && v.ip != "" && !IPPattern.ValidIP(v.ip))
    || Unlisted("verification", v.verification, VIP_VERIFICATIONS, m, t)
  }

  lemma AddressKind(name: FieldName, s: string, m: string, t: Fault, formats: Formats)
    ensures ReportedBy(Leaf(name, Typed(NonZero(s), Address)), m, t, formats) <==>
            m == name && t == PatternFail && s != "" && !IPPattern.ValidIP(s)
  {
    hide IPPattern.ValidIP;
  }

  lemma VipReported(v: Vip, m: string, t: Fault, formats: Formats)
    ensures Reported(NodeError(VipNode(v), formats), m, t) <==> VipReports(v, m, t, formats)
  {
    hide ReportedBy, ReportedByAny, BadUuid, Unlisted, UUID, VIP_VERIFICATIONS, NonZero, NodeError, Reports;
    hide IPPattern.ValidIP;
    NodeReportsFields(VipNode(v), m, t, formats);
    LeafKinds(m, t, formats);
    AddressKind(IP_FIELD, v.ip, m, t, formats);
    AnyListed(VipNode(v).fields, m, t, formats);
  }

  // ---------------------------------------------------------------- the validators

  method ValidateProgress(p: HostProgressInfo, formats: Formats) returns (err: Option<Err>)
    ensures err.None? <==> GoodProgress(p, formats)
    ensures forall m, t :: Reported(err, m, t) <==> ProgressReports(p, m, t, formats)
    ensures err == NodeError(ProgressNode(p), formats)
  {
    hide ProgressNode, Holds, GoodProgress, ProgressReports, Reports;
    NodeExact(ProgressNode(p), formats);
    ProgressExact(p, formats);
    err := Validate(ProgressNode(p), formats);
    forall m, t
      ensures Reported(err, m, t) <==> ProgressReports(p, m, t, formats)
    {
      ProgressReported(p, m, t, formats);
    }
  }

  method ValidateHost(h: Host, formats: Formats) returns (err: Option<Err>)
    ensures err.None? <==> GoodHost(h, formats)
    ensures forall m, t :: Reported(err, m, t) <==> HostReports(h, m, t, formats)
    ensures err == NodeError(HostNode(h), formats)
  {
    hide HostNode, Holds, GoodHost, HostReports, Reports;
    NodeExact(HostNode(h), formats);
    HostExact(h, formats);
    err := Validate(HostNode(h), formats);
    forall m, t
      ensures Reported(err, m, t) <==> HostReports(h, m, t, formats)
    {
      HostReported(h, m, t, formats);
    }
  }

  method ValidateCluster(c: Cluster, formats: Formats) returns (err: Option<Err>)
    ensures err.None? <==> GoodCluster(c, formats)
    ensures forall m, t :: Reported(err, m, t) <==> ClusterReports(c, m, t, formats)
    ensures err == NodeError(ClusterNode(c), formats)
  {
    hide ClusterNode, Holds, GoodCluster, ClusterReports, Reports;
    NodeExact(ClusterNode(c), formats);
    ClusterExact(c, formats);
    err := Validate(ClusterNode(c), formats);
    forall m, t
      ensures Reported(err, m, t) <==> ClusterReports(c, m, t, formats)
    {
      ClusterReported(c, m, t, formats);
    }
  }
}
