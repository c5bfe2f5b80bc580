/**
 * The proxy's startup entry point (`cproxy_init` in cproxy_config.c): set up
 * the protocol adapters, parse the behavior string and hand the
 * configuration to the topology parser, or to the agent when it names one.
 */
module Dispatch {
  import opened Outcomes
  import opened CStrings
  import opened Behavior
  import opened Topology

  /**
   * What startup did: whether the ascii and binary adapters were set up,
   * the behavior record it parsed, the create requests issued, and how it
   * ended.
   */
  datatype Boot = Boot(
    adaptersReady: bool,
    behavior: Option<ProxyBehavior>,
    requests: seq<ProxyRequest>,
    end: Termination)

  /**
   * The status returned for a configuration in the agent's `name@host`
   * form when the agent is not built in.
   */
  const AgentUnavailable: int := 1

  /** What `cproxy_init` does with a configuration and a behavior string. */
  function InitOf(cfg: Option<string>, behaviorStr: Option<string>, nthreads: int, host: Host): Boot
  {
    if cfg.None? || |cfg.value| == 0 then Boot(false, None, [], Returned(0))
    else
      match BehaviorOf(behaviorStr, nthreads)
      case Err(e) => Boot(true, None, [], Aborted(e))
      case Ok(b) =>
        if '@' !in cfg.value then
          var t := InitStringOf(cfg, b, host);
          Boot(true, Some(b), t.requests, t.end)
        else Boot(true, Some(b), [], Returned(AgentUnavailable))
  }

  /**
   * `cproxy_init`: nothing happens for an empty configuration; otherwise the
   * adapters are set up, the behavior is parsed and the configuration goes
   * to the topology parser unless it contains '@'. The assertions on the
   * thread count are the caller's obligations.
   */
  method Init(cfg: Option<string>, behaviorStr: Option<string>, nthreads: int, numThreads: int, host: Host)
    returns (r: Boot)
    requires nthreads > 1
    requires nthreads == numThreads
    ensures r == InitOf(cfg, behaviorStr, nthreads, host)
  {
    if cfg.None? || |cfg.value| == 0 {
      return Boot(false, None, [], Returned(0));
    }
    var adaptersReady := true;
    var parsed := ParseBehavior(behaviorStr, nthreads, numThreads);
    if parsed.Err? {
      return Boot(adaptersReady, None, [], Aborted(parsed.error));
    }
    var behavior := parsed.value;
    if '@' !in cfg.value {
      var t := InitString(cfg, behavior, host);
      return Boot(adaptersReady, Some(behavior), t.requests, t.end);
    }
    return Boot(adaptersReady, Some(behavior), [], Returned(AgentUnavailable));
  }

  /**
   * An empty or absent configuration returns 0 before anything else is done;
   * any other configuration sets the adapters up.
   */
  lemma NothingForEmptyConfig(cfg: Option<string>, behaviorStr: Option<string>, nthreads: int, host: Host)
    ensures InitOf(cfg, behaviorStr, nthreads, host).adaptersReady <==> cfg.Some? && |cfg.value| > 0
    ensures !InitOf(cfg, behaviorStr, nthreads, host).adaptersReady ==>
      InitOf(cfg, behaviorStr, nthreads, host) == Boot(false, None, [], Returned(0))
  {
  }

  /**
   * Startup returns 1 exactly for a configuration naming an agent with a
   * behavior string that parses, and 0 or termination otherwise; an agent
   * configuration never issues a create request.
   */
  lemma AgentIff(cfg: Option<string>, behaviorStr: Option<string>, nthreads: int, host: Host)
    ensures InitOf(cfg, behaviorStr, nthreads, host).end == Returned(AgentUnavailable) <==>
      cfg.Some? && '@' in cfg.value && BehaviorOf(behaviorStr, nthreads).Ok?
    ensures InitOf(cfg, behaviorStr, nthreads, host).end.Returned? ==>
      InitOf(cfg, behaviorStr, nthreads, host).end.code in {0, AgentUnavailable}
    ensures cfg.Some? && '@' in cfg.value ==> InitOf(cfg, behaviorStr, nthreads, host).requests == []
  {
    if cfg.Some? && |cfg.value| > 0 && '@' !in cfg.value && BehaviorOf(behaviorStr, nthreads).Ok? {
      var b := BehaviorOf(behaviorStr, nthreads).value;
      RunShape(ParseSections(Split(cfg.value, ';')), b, host);
    }
  }

  /**
   * A configuration without '@' gets exactly what the topology parser does
   * with the parsed behavior; a behavior string that fails its assertion
   * stops startup before any request.
   */
  lemma PlainConfigDelegates(cfg: string, behaviorStr: Option<string>, nthreads: int, host: Host)
    requires |cfg| > 0 && '@' !in cfg
    ensures BehaviorOf(behaviorStr, nthreads).Err? ==>
      InitOf(Some(cfg), behaviorStr, nthreads, host) ==
        Boot(true, None, [], Aborted(BehaviorOf(behaviorStr, nthreads).error))
    ensures BehaviorOf(behaviorStr, nthreads).Ok? ==>
      var b := BehaviorOf(behaviorStr, nthreads).value;
      && InitOf(Some(cfg), behaviorStr, nthreads, host).behavior == Some(b)
      && InitOf(Some(cfg), behaviorStr, nthreads, host).requests == InitStringOf(Some(cfg), b, host).requests
      && InitOf(Some(cfg), behaviorStr, nthreads, host).end == InitStringOf(Some(cfg), b, host).end
  {
  }

  /**
   * Every create request startup issues carries the name "default", config
   * version 0 and the behavior record it parsed.
   */
  lemma RequestsCarryBehavior(cfg: Option<string>, behaviorStr: Option<string>, nthreads: int, host: Host)
    ensures var r := InitOf(cfg, behaviorStr, nthreads, host);
      forall k | 0 <= k < |r.requests| ::
        && r.behavior.Some?
        && r.requests[k] == ProxyRequest(ProxyName, r.requests[k].port, r.requests[k].config, 0, r.behavior.value)
  {
    var r := InitOf(cfg, behaviorStr, nthreads, host);
    if cfg.Some? && |cfg.value| > 0 && '@' !in cfg.value && BehaviorOf(behaviorStr, nthreads).Ok? {
      var b := BehaviorOf(behaviorStr, nthreads).value;
      var ps := ParseSections(Split(cfg.value, ';'));
      RunShape(ps, b, host);
      RequestsCarry(ps, b);
      assert r.requests == RequestsOf(ps, b)[..|r.requests|];
    }
  }
}
