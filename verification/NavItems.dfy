/** The tab ids of the real build: navItems.ts as App.tsx passes it to the hook. */
module NavItems {
  import opened Prelude
  import opened TabIds
  import opened TabHistory

  // Every id that some combination of feature flags can show, a few destinations at a time.
  const CORE_IDS: seq<string> := [
    "dashboard", "topology", "ran", "radio-signal", "services", "config", "auto-config", "radio-config", "rf-planning"]
  const DATA_IDS: seq<string> := [
    "apn-profiles", "subscribers", "suci", "backup", "logs", "metrics", "traffic-history", "sas", "time-server"]
  const NETWORK_IDS: seq<string> := [
    "frr", "bind", "dhcp", "sms", "gsm", "gsm-signal", "hnbgw", "ims", "pstn", "ocs"]
  const SERVICE_IDS: seq<string> := [
    "charging-plans", "cdr", "vowifi", "secgw", "twamp", "snmp", "validation", "pcap", "users"]

  /** App.tsx's call: the default is the dashboard, and only ids of the build are known. */
  ghost predicate IsAppConfig(cfg: Config) {
    && cfg.defaultTab == "dashboard"
    && cfg.isKnown.Some?
    && forall id {:trigger cfg.isKnown.value(id)} :: cfg.isKnown.value(id) ==>
        id in CORE_IDS || id in DATA_IDS || id in NETWORK_IDS || id in SERVICE_IDS
  }

  lemma CoreIds() ensures forall id :: id in CORE_IDS ==> IsTabId(id) {}
  lemma DataIds() ensures forall id :: id in DATA_IDS ==> IsTabId(id) {}
  lemma NetworkIds() ensures forall id :: id in NETWORK_IDS ==> IsTabId(id) {}
  lemma ServiceIds() ensures forall id :: id in SERVICE_IDS ==> IsTabId(id) {}

  /**
    For the real build, whatever its feature flags, every `navigate` call is
    well-formed: no assumption about ids is left to its callers.
   */
  lemma AppNavigationsAreWellFormed(cfg: Config, tab: string)
    requires IsAppConfig(cfg)
    ensures IsTabId(cfg.defaultTab) && WellFormed(cfg, Navigate(tab))
  {
    CoreIds();
    DataIds();
    NetworkIds();
    ServiceIds();
    assert "dashboard" == CORE_IDS[0];
    if Resolve(cfg, Some(tab)) == tab {
      assert tab == cfg.defaultTab || cfg.isKnown.value(tab);
    }
  }
}
