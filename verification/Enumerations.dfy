/** The enumerations, value by value, apart from the lists that the validators search. */
module Enumerations {
  import opened Cluster
  import opened ClusterParts

  lemma HostKinds(s: string)
    ensures s in HOST_KINDS <==>
            || s == "Host" || s == "AddToExistingClusterHost"
  {
  }

  lemma MediaStatuses(s: string)
    ensures s in MEDIA_STATUSES <==>
            || s == "connected" || s == "disconnected"
  {
  }

  lemma BoundStatuses(s: string)
    ensures s in BOUND_STATUSES <==>
            || s == "discovering" || s == "known" || s == "disconnected" || s == "insufficient" || s == "disabled"
            || s == "preparing-for-installation" || s == "preparing-failed" || s == "preparing-successful"
            || s == "pending-for-input" || s == "installing" || s == "installing-in-progress"
            || s == "installing-pending-user-action" || s == "resetting-pending-user-action" || s == "installed"
            || s == "error" || s == "resetting" || s == "added-to-existing-cluster" || s == "cancelled"
  {
  }

  lemma UnboundStatuses(s: string)
    ensures s in UNBOUND_STATUSES <==>
            || s == "binding" || s == "unbinding" || s == "unbinding-pending-user-action" || s == "known-unbound"
            || s == "disconnected-unbound" || s == "insufficient-unbound" || s == "disabled-unbound"
            || s == "discovering-unbound" || s == "reclaiming" || s == "reclaiming-rebooting"
  {
  }

  lemma HostStatuses(s: string)
    ensures s in HOST_STATUSES <==>
            || s == "discovering" || s == "known" || s == "disconnected" || s == "insufficient" || s == "disabled"
            || s == "preparing-for-installation" || s == "preparing-failed" || s == "preparing-successful"
            || s == "pending-for-input" || s == "installing" || s == "installing-in-progress"
            || s == "installing-pending-user-action" || s == "resetting-pending-user-action" || s == "installed"
            || s == "error" || s == "resetting" || s == "added-to-existing-cluster" || s == "cancelled"
            || s == "binding" || s == "unbinding" || s == "unbinding-pending-user-action" || s == "known-unbound"
            || s == "disconnected-unbound" || s == "insufficient-unbound" || s == "disabled-unbound"
            || s == "discovering-unbound" || s == "reclaiming" || s == "reclaiming-rebooting"
  {
    BoundStatuses(s);
    UnboundStatuses(s);
    hide BOUND_STATUSES, UNBOUND_STATUSES;
  }

  lemma CpuArchitectures(s: string)
    ensures s in CPU_ARCHITECTURES <==>
            || s == "x86_64" || s == "aarch64" || s == "arm64" || s == "ppc64le" || s == "s390x" || s == "multi"
  {
  }

  lemma HighAvailabilityModes(s: string)
    ensures s in HIGH_AVAILABILITY_MODES <==>
            || s == "Full" || s == "None"
  {
  }

  lemma HyperthreadingRoles(s: string)
    ensures s in HYPERTHREADING_ROLES <==>
            || s == "none" || s == "masters" || s == "arbiters" || s == "workers" || s == "masters,arbiters"
            || s == "masters,workers" || s == "arbiters,workers" || s == "masters,arbiters,workers" || s == "all"
  {
  }

  lemma ClusterKinds(s: string)
    ensures s in CLUSTER_KINDS <==>
            || s == "Cluster" || s == "AddHostsCluster" || s == "DisconnectedCluster"
  {
  }

  lemma NetworkTypes(s: string)
    ensures s in NETWORK_TYPES <==>
            || s == "OpenShiftSDN" || s == "OVNKubernetes" || s == "CiscoACI" || s == "Cilium" || s == "Calico"
            || s == "None"
  {
  }

  lemma ClusterStatuses(s: string)
    ensures s in CLUSTER_STATUSES <==>
            || s == "insufficient" || s == "ready" || s == "error" || s == "preparing-for-installation"
            || s == "pending-for-input" || s == "installing" || s == "finalizing" || s == "installed"
            || s == "adding-hosts" || s == "cancelled" || s == "installing-pending-user-action"
            || s == "unmonitored"
  {
  }

  lemma HostStages(s: string)
    ensures s in HOST_STAGES <==>
            || s == "Starting installation" || s == "Waiting for control plane" || s == "Waiting for bootkube"
            || s == "Waiting for controller" || s == "Installing" || s == "Writing image to disk"
            || s == "Copying registry data to disk" || s == "Rebooting" || s == "Waiting for ignition"
            || s == "Configuring" || s == "Joined" || s == "Done" || s == "Failed"
  {
  }

  lemma HostRoles(s: string)
    ensures s in HOST_ROLES <==>
            || s == "auto-assign" || s == "master" || s == "arbiter" || s == "worker" || s == "bootstrap"
  {
  }

  lemma LogsStates(s: string)
    ensures s in LOGS_STATES <==>
            || s == "requested" || s == "collecting" || s == "completed" || s == "timeout" || s == ""
  {
  }

  lemma VipVerifications(s: string)
    ensures s in VIP_VERIFICATIONS <==>
            || s == "unverified" || s == "failed" || s == "succeeded"
  {
  }
}
