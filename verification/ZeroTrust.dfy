/** The zero-trust evaluation: what is remembered about the user goes into the risk engine. */
module ZeroTrust {
  import opened Prelude
  import TtlStore
  import RiskMemory
  import RiskEngine

  /** The evaluation as a function of the risk memory's store and the device store, either of which may be missing. */
  function Evaluate(memory: Option<TtlStore.State>, devices: Option<TtlStore.State>, hmac: string -> string,
                    geo: string -> RiskEngine.Geo, c: RiskEngine.Context): RiskEngine.Assessment
  {
    var failures := if memory.Some? then RiskMemory.GetFailures(memory.value, c.userId) else 0;
    var previousIp := if memory.Some? then RiskMemory.GetLastIp(memory.value, c.userId) else None;
    var known := devices.Some? && RiskMemory.Given(c.clientDeviceId)
              && RiskMemory.IsKnown(devices.value, c.userId, hmac(c.clientDeviceId.value));
    RiskEngine.Assess(RiskEngine.Reasons(RiskEngine.SignalsOf(c, failures, previousIp, known, geo)))
  }

  /** What the returned texts say about what the two stores remember. */
  lemma EvaluateMeans(memory: Option<TtlStore.State>, devices: Option<TtlStore.State>, hmac: string -> string,
                      geo: string -> RiskEngine.Geo, c: RiskEngine.Context)
    ensures
      var a := Evaluate(memory, devices, hmac, geo, c);
      && ("failed_attempts>=3" in a.reasons <==>
            memory.Some? && RiskMemory.GetFailures(memory.value, c.userId) >= 3)
      && ("failed_attempts>=6" in a.reasons <==>
            memory.Some? && RiskMemory.GetFailures(memory.value, c.userId) >= 6)
      && ("ip_changed" in a.reasons <==>
            memory.Some? && RiskMemory.Given(RiskMemory.GetLastIp(memory.value, c.userId))
            && RiskMemory.GetLastIp(memory.value, c.userId) != c.ip)
      && ("unknown_device" in a.reasons <==>
            !(devices.Some? && RiskMemory.Given(c.clientDeviceId)
              && RiskMemory.IsKnown(devices.value, c.userId, hmac(c.clientDeviceId.value))))
      && ("reset_flow" in a.reasons <==> c.isResetFlow)
      && ("passwordless_flow" in a.reasons <==> c.isPasswordless)
  {
    hide RiskEngine.Assess, RiskEngine.Reasons, RiskEngine.SignalsOf,
      RiskMemory.GetFailures, RiskMemory.GetLastIp, RiskMemory.IsKnown;
    RiskEngine.ReasonsMean(
      c, if memory.Some? then RiskMemory.GetFailures(memory.value, c.userId) else 0,
      if memory.Some? then RiskMemory.GetLastIp(memory.value, c.userId) else None,
      devices.Some? && RiskMemory.Given(c.clientDeviceId)
      && RiskMemory.IsKnown(devices.value, c.userId, hmac(c.clientDeviceId.value)), geo);
  }

  function ContentsOf(store: TtlStore.Store?): Option<TtlStore.State>
    reads if store == null then {} else {store}
  {
    if store == null then None else Some(store.Contents())
  }

  class ZeroTrustService {
    const risk: RiskEngine.RiskEngineService
    const memory: RiskMemory.RiskMemoryService

    constructor (risk: RiskEngine.RiskEngineService, memory: RiskMemory.RiskMemoryService)
      ensures this.risk == risk && this.memory == memory
    {
      this.risk := risk;
      this.memory := memory;
    }

    method DoEvaluate(c: RiskEngine.Context) returns (a: RiskEngine.Assessment)
      ensures a == Evaluate(ContentsOf(memory.cache), ContentsOf(risk.devices.store), risk.devices.hmac, risk.geo, c)
      ensures
        var store, trusted := memory.cache, risk.devices.store;
        && ("failed_attempts>=3" in a.reasons <==>
              store != null && RiskMemory.GetFailures(store.Contents(), c.userId) >= 3)
        && ("failed_attempts>=6" in a.reasons <==>
              store != null && RiskMemory.GetFailures(store.Contents(), c.userId) >= 6)
        && ("ip_changed" in a.reasons <==>
              store != null && RiskMemory.Given(RiskMemory.GetLastIp(store.Contents(), c.userId))
              && RiskMemory.GetLastIp(store.Contents(), c.userId) != c.ip)
        && ("unknown_device" in a.reasons <==>
              !(trusted != null && RiskMemory.Given(c.clientDeviceId)
                && RiskMemory.IsKnown(trusted.Contents(), c.userId, risk.devices.hmac(c.clientDeviceId.value))))
        && ("reset_flow" in a.reasons <==> c.isResetFlow)
        && ("passwordless_flow" in a.reasons <==> c.isPasswordless)
    {
      var failures := memory.DoGetFailures(c.userId);
      var previousIp := memory.DoGetLastIp(c.userId);
      EvaluateMeans(ContentsOf(memory.cache), ContentsOf(risk.devices.store), risk.devices.hmac, risk.geo, c);
      hide RiskEngine.Assess, RiskEngine.Reasons, RiskEngine.SignalsOf, RiskEngine.Points, RiskEngine.Words,
        RiskMemory.GetFailures, RiskMemory.GetLastIp, RiskMemory.IsKnown;
      a := risk.Evaluate(c, failures, previousIp);
    }
  }
}
