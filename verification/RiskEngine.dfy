/** The risk score: eight weighted signals, their reasons, a clamp and three thresholds. */
module RiskEngine {
  import opened Prelude
  import RiskMemory

  /** What a GeoIP lookup yields: nothing, or a result that may lack a country code. */
  datatype Geo = NoResult | Located(countryCode: Option<string>)

  datatype Context = Context(
    userId: string,
    ip: Option<string>,
    clientDeviceId: Option<string>,
    isPasswordless: bool,
    isResetFlow: bool)

  datatype Decision = Allow | StepUpTotp | StepUpWebAuthn | Block

  datatype Assessment = Assessment(score: int, decision: Decision, reasons: seq<string>)

  datatype Signals = Signals(
    unknownDevice: bool,
    ipChanged: bool,
    countryChanged: bool,
    highRiskCountry: bool,
    failedThree: bool,
    failedSix: bool,
    resetFlow: bool,
    passwordless: bool) {

    predicate On(r: Reason)
    {
      match r
      case UnknownDevice => unknownDevice
      case IpChanged => ipChanged
      case CountryChanged => countryChanged
      case HighRiskCountry => highRiskCountry
      case FailedThree => failedThree
      case FailedSix => failedSix
      case ResetFlow => resetFlow
      case PasswordlessFlow => passwordless
    }
  }

  datatype Reason =
    | UnknownDevice
    | IpChanged
    | CountryChanged
    | HighRiskCountry
    | FailedThree
    | FailedSix
    | ResetFlow
    | PasswordlessFlow

  const ORDER := [UnknownDevice, IpChanged, CountryChanged, HighRiskCountry,
                  FailedThree, FailedSix, ResetFlow, PasswordlessFlow]

  const HIGH_RISK_COUNTRIES := ["RU", "IR", "KP", "SY"]

  function Weight(reason: Reason): nat
  {
    match reason
    case UnknownDevice => 20
    case IpChanged => 15
    case CountryChanged => 30
    case HighRiskCountry => 40
    case FailedThree => 20
    case FailedSix => 30
    case ResetFlow => 15
    case PasswordlessFlow => 10
  }

  /** The text a caller sees. */
  function Text(reason: Reason): string
  {
    match reason
    case UnknownDevice => "unknown_device"
    case IpChanged => "ip_changed"
    case CountryChanged => "country_changed"
    case HighRiskCountry => "high_risk_country"
    case FailedThree => "failed_attempts>=3"
    case FailedSix => "failed_attempts>=6"
    case ResetFlow => "reset_flow"
    case PasswordlessFlow => "passwordless_flow"
  }

  function Texts(reasons: seq<Reason>): seq<string>
  {
    if reasons == [] then [] else Texts(reasons[..|reasons| - 1]) + [Text(reasons[|reasons| - 1])]
  }

  function Total(reasons: seq<Reason>): nat
  {
    if reasons == [] then 0 else Total(reasons[..|reasons| - 1]) + Weight(reasons[|reasons| - 1])
  }

  function Rank(d: Decision): nat
  {
    match d case Allow => 0 case StepUpTotp => 1 case StepUpWebAuthn => 2 case Block => 3
  }

  function Decide(score: int): Decision
  {
    if score >= 85 then Block
    else if score >= 60 then StepUpWebAuthn
    else if score >= 35 then StepUpTotp
    else Allow
  }

  /** The signals that are on among the first `k`, in the order they are looked at. */
  function Select(s: Signals, k: nat): seq<Reason>
    requires k <= |ORDER|
  {
    if k == 0 then []
    else if s.On(ORDER[k - 1]) then Select(s, k - 1) + [ORDER[k - 1]]
    else Select(s, k - 1)
  }

  /** The reasons for a result: every signal that is on, in order. */
  function Reasons(s: Signals): seq<Reason>
  {
    Select(s, |ORDER|)
  }

  /** The whole result follows from the list of reasons. */
  function Assess(reasons: seq<Reason>): Assessment
  {
    var score := Min(100, Total(reasons));
    Assessment(score, Decide(score), Texts(reasons))
  }

  function Lookup(geo: string -> Geo, ip: Option<string>): Geo
  {
    if RiskMemory.Given(ip) then geo(ip.value) else NoResult
  }

  function SignalsOf(c: Context, failedAttempts: nat, previousIp: Option<string>, isKnownDevice: bool,
                     geo: string -> Geo): Signals
  {
    var here := Lookup(geo, c.ip);
    var moved := RiskMemory.Given(previousIp) && previousIp != c.ip;
    var there := if moved then Lookup(geo, previousIp) else NoResult;
    Signals(
      !isKnownDevice,
      moved,
      here.Located? && there.Located? && here.countryCode != there.countryCode,
      here.Located? && RiskMemory.Given(here.countryCode) && here.countryCode.value in HIGH_RISK_COUNTRIES,
      failedAttempts >= 3,
      failedAttempts >= 6,
      c.isResetFlow,
      c.isPasswordless)
  }

  lemma TotalAppend(reasons: seq<Reason>, r: Reason)
    ensures Total(reasons + [r]) == Total(reasons) + Weight(r)
    ensures Texts(reasons + [r]) == Texts(reasons) + [Text(r)]
  {}

  /** The texts tell the reasons apart, so the list of texts alone determines score and decision. */
  lemma TextTellsReason(a: Reason, b: Reason)
    requires Text(a) == Text(b)
    ensures a == b
  {
    assert |Text(UnknownDevice)| == 14 && |Text(CountryChanged)| == 15;
    assert Text(IpChanged)[0] == 'i' && Text(ResetFlow)[0] == 'r';
    assert Text(HighRiskCountry)[0] == 'h' && Text(PasswordlessFlow)[0] == 'p';
    assert |Text(FailedThree)| == 18 && |Text(FailedSix)| == 18;
    assert Text(FailedThree)[17] == '3' && Text(FailedSix)[17] == '6';
  }

  predicate AtMost(s: Signals, t: Signals)
  {
    forall r: Reason :: s.On(r) ==> t.On(r)
  }

  /** The signals in the context's own terms. */
  lemma SignalsMean(c: Context, failedAttempts: nat, previousIp: Option<string>, isKnownDevice: bool,
                    geo: string -> Geo)
    ensures
      var s := SignalsOf(c, failedAttempts, previousIp, isKnownDevice, geo);
      var moved := previousIp.Some? && previousIp.value != "" && previousIp != c.ip;
      var here := if c.ip.Some? && c.ip.value != "" then geo(c.ip.value) else NoResult;
      && s.unknownDevice == !isKnownDevice && s.ipChanged == moved
      && s.countryChanged == (moved && here.Located? && geo(previousIp.value).Located?
                              && here.countryCode != geo(previousIp.value).countryCode)
      && s.highRiskCountry ==
           (here.Located? && here.countryCode in {Some("RU"), Some("IR"), Some("KP"), Some("SY")})
      && s.failedThree == (failedAttempts >= 3) && s.failedSix == (failedAttempts >= 6)
      && s.resetFlow == c.isResetFlow && s.passwordless == c.isPasswordless
  {}

  /** The assessment in the context's own terms, with the weights and thresholds written out. */
  lemma AssessmentMeans(c: Context, failedAttempts: nat, previousIp: Option<string>, isKnownDevice: bool,
                        geo: string -> Geo)
    ensures
      var a := Assess(Reasons(SignalsOf(c, failedAttempts, previousIp, isKnownDevice, geo)));
      var moved := previousIp.Some? && previousIp.value != "" && previousIp != c.ip;
      var here := if c.ip.Some? && c.ip.value != "" then geo(c.ip.value) else NoResult;
      var abroad := moved && here.Located? && geo(previousIp.value).Located?
                    && here.countryCode != geo(previousIp.value).countryCode;
      var risky := here.Located? && here.countryCode in {Some("RU"), Some("IR"), Some("KP"), Some("SY")};
      var total :=
        Points(!isKnownDevice, 20) + Points(moved, 15) + Points(abroad, 30) + Points(risky, 40)
        + Points(failedAttempts >= 3, 20) + Points(failedAttempts >= 6, 30)
        + Points(c.isResetFlow, 15) + Points(c.isPasswordless, 10);
      && a.score == (if total > 100 then 100 else total)
      && a.decision == (if total >= 85 then Block else if total >= 60 then StepUpWebAuthn
                        else if total >= 35 then StepUpTotp else Allow)
      && a.reasons ==
           Words(!isKnownDevice, "unknown_device") + Words(moved, "ip_changed") + Words(abroad, "country_changed")
           + Words(risky, "high_risk_country") + Words(failedAttempts >= 3, "failed_attempts>=3")
           + Words(failedAttempts >= 6, "failed_attempts>=6") + Words(c.isResetFlow, "reset_flow")
           + Words(c.isPasswordless, "passwordless_flow")
  {
    SignalsMean(c, failedAttempts, previousIp, isKnownDevice, geo);
    AssessmentIsSum(SignalsOf(c, failedAttempts, previousIp, isKnownDevice, geo));
    hide Points, Words, Assess, Reasons, SignalsOf;
  }

  /** Each returned text in the context's own terms. */
  lemma ReasonsMean(c: Context, failedAttempts: nat, previousIp: Option<string>, isKnownDevice: bool,
                    geo: string -> Geo)
    ensures
      var a := Assess(Reasons(SignalsOf(c, failedAttempts, previousIp, isKnownDevice, geo)));
      var moved := previousIp.Some? && previousIp.value != "" && previousIp != c.ip;
      var here := if c.ip.Some? && c.ip.value != "" then geo(c.ip.value) else NoResult;
      && ("unknown_device" in a.reasons <==> !isKnownDevice)
      && ("ip_changed" in a.reasons <==> moved)
      && ("country_changed" in a.reasons <==>
            moved && here.Located? && geo(previousIp.value).Located?
            && here.countryCode != geo(previousIp.value).countryCode)
      && ("high_risk_country" in a.reasons <==>
            here.Located? && here.countryCode in {Some("RU"), Some("IR"), Some("KP"), Some("SY")})
      && ("failed_attempts>=3" in a.reasons <==> failedAttempts >= 3)
      && ("failed_attempts>=6" in a.reasons <==> failedAttempts >= 6)
      && ("reset_flow" in a.reasons <==> c.isResetFlow)
      && ("passwordless_flow" in a.reasons <==> c.isPasswordless)
  {
    var s := SignalsOf(c, failedAttempts, previousIp, isKnownDevice, geo);
    SignalsMean(c, failedAttempts, previousIp, isKnownDevice, geo);
    hide Assess, Reasons, SignalsOf;
    ReasonsAreSignals(s, UnknownDevice);
    ReasonsAreSignals(s, IpChanged);
    ReasonsAreSignals(s, CountryChanged);
    ReasonsAreSignals(s, HighRiskCountry);
    ReasonsAreSignals(s, FailedThree);
    ReasonsAreSignals(s, FailedSix);
    ReasonsAreSignals(s, ResetFlow);
    ReasonsAreSignals(s, PasswordlessFlow);
  }

  lemma SelectGrows(s: Signals, t: Signals, k: nat)
    requires AtMost(s, t) && k <= |ORDER|
    ensures Total(Select(s, k)) <= Total(Select(t, k))
  {}

  lemma SelectMembers(s: Signals, k: nat, r: Reason)
    requires k <= |ORDER|
    ensures r in Select(s, k) <==> r in ORDER[..k] && s.On(r)
  {}

  lemma {:induction false} TextsAre(reasons: seq<Reason>, r: Reason)
    ensures Text(r) in Texts(reasons) <==> r in reasons
    decreases |reasons|
  {
    if reasons != [] {
      var before, last := reasons[..|reasons| - 1], reasons[|reasons| - 1];
      TextsAre(before, r);
      if Text(r) == Text(last) {
        TextTellsReason(r, last);
      }
      hide Text;
      assert reasons == before + [last];
    }
  }

  /** The returned reasons are exactly the texts of the signals that are on. */
  lemma ReasonsAreSignals(s: Signals, r: Reason)
    ensures Text(r) in Assess(Reasons(s)).reasons <==> s.On(r)
  {
    TextsAre(Reasons(s), r);
    SelectMembers(s, |ORDER|, r);
    hide Text;
    assert ORDER[0] == UnknownDevice && ORDER[1] == IpChanged && ORDER[2] == CountryChanged
        && ORDER[3] == HighRiskCountry && ORDER[4] == FailedThree && ORDER[5] == FailedSix
        && ORDER[6] == ResetFlow && ORDER[7] == PasswordlessFlow;
  }

  lemma SelectNext(s: Signals, k: nat)
    requires k < |ORDER|
    ensures Select(s, k + 1) == Select(s, k) + if s.On(ORDER[k]) then [ORDER[k]] else []
  {}

  /** What a signal adds to the score. */
  function Points(on: bool, weight: nat): nat
  {
    if on then weight else 0
  }

  /** What a signal adds to the reasons. */
  function Words(on: bool, text: string): seq<string>
  {
    if on then [text] else []
  }

  lemma OneMoreSignal(s: Signals, k: nat)
    requires k < |ORDER|
    ensures Total(Select(s, k + 1)) == Total(Select(s, k)) + Points(s.On(ORDER[k]), Weight(ORDER[k]))
    ensures Texts(Select(s, k + 1)) == Texts(Select(s, k)) + Words(s.On(ORDER[k]), Text(ORDER[k]))
  {
    var r := ORDER[k];
    var before := Select(s, k);
    SelectNext(s, k);
    TotalAppend(before, r);
    hide Text, Weight, Select, Total, Texts;
    if !s.On(r) {
      assert before + [] == before && Texts(before) + [] == Texts(before);
    }
  }

  /** Score, decision and texts, signal by signal. */
  lemma AssessmentIsSum(s: Signals)
    ensures
      var a := Assess(Reasons(s));
      var total :=
        Points(s.unknownDevice, 20) + Points(s.ipChanged, 15) + Points(s.countryChanged, 30)
        + Points(s.highRiskCountry, 40) + Points(s.failedThree, 20) + Points(s.failedSix, 30)
        + Points(s.resetFlow, 15) + Points(s.passwordless, 10);
      && a.score == (if total > 100 then 100 else total)
      && a.decision == (if total >= 85 then Block else if total >= 60 then StepUpWebAuthn
                        else if total >= 35 then StepUpTotp else Allow)
      && a.reasons ==
           Words(s.unknownDevice, "unknown_device") + Words(s.ipChanged, "ip_changed")
           + Words(s.countryChanged, "country_changed") + Words(s.highRiskCountry, "high_risk_country")
           + Words(s.failedThree, "failed_attempts>=3") + Words(s.failedSix, "failed_attempts>=6")
           + Words(s.resetFlow, "reset_flow") + Words(s.passwordless, "passwordless_flow")
  {
    FirstFourSignals(s);
    LastFourSignals(s);
    hide Points, Words, Select, Total, Texts;
  }

  lemma FirstSignal(s: Signals)
    ensures Total(Select(s, 1)) == Points(s.unknownDevice, 20)
    ensures Texts(Select(s, 1)) == Words(s.unknownDevice, "unknown_device")
  {
    OneMoreSignal(s, 0);
    assert ORDER[0] == UnknownDevice;
    var before: seq<string> := Texts(Select(s, 0));
    assert before == [] && Total(Select(s, 0)) == 0;
    hide Select, Total, Texts, Words, Points;
    assert before + Words(s.unknownDevice, "unknown_device") == Words(s.unknownDevice, "unknown_device");
  }

  lemma FirstFourSignals(s: Signals)
    ensures Total(Select(s, 4)) ==
              Points(s.unknownDevice, 20) + Points(s.ipChanged, 15) + Points(s.countryChanged, 30)
              + Points(s.highRiskCountry, 40)
    ensures Texts(Select(s, 4)) ==
              Words(s.unknownDevice, "unknown_device") + Words(s.ipChanged, "ip_changed")
              + Words(s.countryChanged, "country_changed") + Words(s.highRiskCountry, "high_risk_country")
  {
    FirstSignal(s);
    hide Select, Total, Texts, Points, Words;
    OneMoreSignal(s, 1);
    OneMoreSignal(s, 2);
    OneMoreSignal(s, 3);
  }

  lemma LastFourSignals(s: Signals)
    ensures Total(Select(s, 8)) ==
              Total(Select(s, 4)) + Points(s.failedThree, 20) + Points(s.failedSix, 30)
              + Points(s.resetFlow, 15) + Points(s.passwordless, 10)
    ensures Texts(Select(s, 8)) ==
              Texts(Select(s, 4)) + Words(s.failedThree, "failed_attempts>=3")
              + Words(s.failedSix, "failed_attempts>=6") + Words(s.resetFlow, "reset_flow")
              + Words(s.passwordless, "passwordless_flow")
  {
    hide Select, Total, Texts, Points, Words;
    OneMoreSignal(s, 4);
    OneMoreSignal(s, 5);
    OneMoreSignal(s, 6);
    OneMoreSignal(s, 7);
  }

  /** Turning on further signals never lowers the score and never weakens the decision. */
  lemma MoreSignalsNeverWeaken(s: Signals, t: Signals)
    requires AtMost(s, t)
    ensures Assess(Reasons(s)).score <= Assess(Reasons(t)).score
    ensures Rank(Assess(Reasons(s)).decision) <= Rank(Assess(Reasons(t)).decision)
  {
    SelectGrows(s, t, |ORDER|);
  }

  lemma {:induction false} FewReasonsWeighLittle(s: Signals, k: nat)
    requires k <= |ORDER|
    ensures |Select(s, k)| == 0 ==> Total(Select(s, k)) == 0
    ensures |Select(s, k)| == 1 ==> Total(Select(s, k)) <= if k <= 3 then 30 else 40
    ensures |Select(s, k)| == 2 ==> Total(Select(s, k)) <= 70
  {
    if k > 0 {
      FewReasonsWeighLittle(s, k - 1);
      SelectNext(s, k - 1);
      TotalAppend(Select(s, k - 1), ORDER[k - 1]);
      assert Weight(ORDER[k - 1]) <= if k <= 3 then 30 else 40;
      assert k > 4 ==> Weight(ORDER[k - 1]) <= 30;
      hide Select, Total, Weight;
      assert Select(s, k - 1) + [] == Select(s, k - 1);
    }
  }

  /** One signal asks for a TOTP at most, and no two signals block. */
  lemma TwoSignalsNeverBlock(s: Signals)
    ensures |Reasons(s)| <= 1 ==> Rank(Assess(Reasons(s)).decision) <= Rank(StepUpTotp)
    ensures |Reasons(s)| <= 2 ==> Assess(Reasons(s)).decision != Block
  {
    FewReasonsWeighLittle(s, |ORDER|);
  }

  /** More failures, everything else the same, never weaken the decision. */
  lemma MoreFailuresNeverWeaken(c: Context, few: nat, many: nat, previousIp: Option<string>,
                                isKnownDevice: bool, geo: string -> Geo)
    requires few <= many
    ensures Rank(Assess(Reasons(SignalsOf(c, few, previousIp, isKnownDevice, geo))).decision)
              <= Rank(Assess(Reasons(SignalsOf(c, many, previousIp, isKnownDevice, geo))).decision)
  {
    MoreSignalsNeverWeaken(SignalsOf(c, few, previousIp, isKnownDevice, geo),
                           SignalsOf(c, many, previousIp, isKnownDevice, geo));
  }

  /** Device risk and a changed address. */
  method AddDeviceAndIp(ghost s: Signals, isKnownDevice: bool, moved: bool, score0: int, reasons0: seq<string>)
    returns (score: int, reasons: seq<string>)
    requires reasons0 == Texts(Select(s, 0)) && score0 == Total(Select(s, 0))
    requires s.unknownDevice == !isKnownDevice
    requires s.ipChanged == moved
    ensures reasons == Texts(Select(s, 2)) && score == Total(Select(s, 2))
  {
    score, reasons := score0, reasons0;
    OneMoreSignal(s, 0);
    OneMoreSignal(s, 1);
    hide Select, Texts, Total;
    if !isKnownDevice {
      score := score + 20;
      reasons := reasons + ["unknown_device"];
    }
    if moved {
      score := score + 15;
      reasons := reasons + ["ip_changed"];
    }
  }

  /** A changed country and a high-risk country. */
  method AddGeo(ghost s: Signals, geo: Geo, previousGeo: Geo, score0: int, reasons0: seq<string>)
    returns (score: int, reasons: seq<string>)
    requires reasons0 == Texts(Select(s, 2)) && score0 == Total(Select(s, 2))
    requires s.countryChanged <==> geo.Located? && previousGeo.Located? && geo.countryCode != previousGeo.countryCode
    requires s.highRiskCountry <==>
               geo.Located? && RiskMemory.Given(geo.countryCode) && geo.countryCode.value in HIGH_RISK_COUNTRIES
    ensures reasons == Texts(Select(s, 4)) && score == Total(Select(s, 4))
  {
    score, reasons := score0, reasons0;
    OneMoreSignal(s, 2);
    OneMoreSignal(s, 3);
    hide Select, Texts, Total;
    if geo.Located? && previousGeo.Located? && geo.countryCode != previousGeo.countryCode {
      score := score + 30;
      reasons := reasons + ["country_changed"];
    }
    if geo.Located? && RiskMemory.Given(geo.countryCode) && geo.countryCode.value in HIGH_RISK_COUNTRIES {
      score := score + 40;
      reasons := reasons + ["high_risk_country"];
    }
  }

  /** Three failures, and six. */
  method AddFailures(ghost s: Signals, failedAttempts: nat, score0: int, reasons0: seq<string>)
    returns (score: int, reasons: seq<string>)
    requires reasons0 == Texts(Select(s, 4)) && score0 == Total(Select(s, 4))
    requires s.failedThree <==> failedAttempts >= 3
    requires s.failedSix <==> failedAttempts >= 6
    ensures reasons == Texts(Select(s, 6)) && score == Total(Select(s, 6))
  {
    score, reasons := score0, reasons0;
    OneMoreSignal(s, 4);
    OneMoreSignal(s, 5);
    hide Select, Texts, Total;
    if failedAttempts >= 3 {
      score := score + 20;
      reasons := reasons + ["failed_attempts>=3"];
    }
    if failedAttempts >= 6 {
      score := score + 30;
      reasons := reasons + ["failed_attempts>=6"];
    }
  }

  /** How the login was started. */
  method AddFlow(ghost s: Signals, isResetFlow: bool, isPasswordless: bool, score0: int, reasons0: seq<string>)
    returns (score: int, reasons: seq<string>)
    requires reasons0 == Texts(Select(s, 6)) && score0 == Total(Select(s, 6))
    requires s.resetFlow == isResetFlow
    requires s.passwordless == isPasswordless
    ensures reasons == Texts(Select(s, 8)) && score == Total(Select(s, 8))
  {
    score, reasons := score0, reasons0;
    OneMoreSignal(s, 6);
    OneMoreSignal(s, 7);
    hide Select, Texts, Total;
    if isResetFlow {
      score := score + 15;
      reasons := reasons + ["reset_flow"];
    }
    if isPasswordless {
      score := score + 10;
      reasons := reasons + ["passwordless_flow"];
    }
  }

  /** The clamp and the thresholds. */
  method Conclude(total: int, texts: seq<string>, ghost reasons: seq<Reason>) returns (a: Assessment)
    requires total == Total(reasons) && texts == Texts(reasons)
    ensures a == Assess(reasons)
  {
    var score := Max(0, Min(100, total));
    if score >= 85 {
      return Assessment(score, Block, texts);
    }
    if score >= 60 {
      return Assessment(score, StepUpWebAuthn, texts);
    }
    if score >= 35 {
      return Assessment(score, StepUpTotp, texts);
    }
    return Assessment(score, Allow, texts);
  }

  class RiskEngineService {
    const geo: string -> Geo
    const devices: RiskMemory.DeviceService

    constructor (geo: string -> Geo, devices: RiskMemory.DeviceService)
      ensures this.geo == geo && this.devices == devices
    {
      this.geo := geo;
      this.devices := devices;
    }

    /** Whether the context names a device the store trusts. */
    predicate Known(c: Context)
      reads devices.store
    {
      RiskMemory.Given(c.clientDeviceId) && devices.store != null
      && RiskMemory.IsKnown(devices.store.Contents(), c.userId, devices.hmac(c.clientDeviceId.value))
    }

    method Evaluate(c: Context, failedAttempts: nat, previousIp: Option<string>) returns (a: Assessment)
      ensures a == Assess(Reasons(SignalsOf(c, failedAttempts, previousIp, Known(c), geo)))
      ensures
        var unknown := !(c.clientDeviceId.Some? && c.clientDeviceId.value != "" && devices.store != null
                         && RiskMemory.IsKnown(devices.store.Contents(), c.userId,
                                               devices.hmac(c.clientDeviceId.value)));
        var moved := previousIp.Some? && previousIp.value != "" && previousIp != c.ip;
        var here := if c.ip.Some? && c.ip.value != "" then geo(c.ip.value) else NoResult;
        var abroad := moved && here.Located? && geo(previousIp.value).Located?
                      && here.countryCode != geo(previousIp.value).countryCode;
        var risky := here.Located? && here.countryCode in {Some("RU"), Some("IR"), Some("KP"), Some("SY")};
        var total :=
          Points(unknown, 20) + Points(moved, 15) + Points(abroad, 30) + Points(risky, 40)
          + Points(failedAttempts >= 3, 20) + Points(failedAttempts >= 6, 30)
          + Points(c.isResetFlow, 15) + Points(c.isPasswordless, 10);
        && a.score == (if total > 100 then 100 else total)
        && a.decision == (if total >= 85 then Block else if total >= 60 then StepUpWebAuthn
                          else if total >= 35 then StepUpTotp else Allow)
        && a.reasons ==
             Words(unknown, "unknown_device") + Words(moved, "ip_changed") + Words(abroad, "country_changed")
             + Words(risky, "high_risk_country") + Words(failedAttempts >= 3, "failed_attempts>=3")
             + Words(failedAttempts >= 6, "failed_attempts>=6") + Words(c.isResetFlow, "reset_flow")
             + Words(c.isPasswordless, "passwordless_flow")
    {
      var isKnownDevice := false;
      if RiskMemory.Given(c.clientDeviceId) {
        isKnownDevice := devices.DoIsKnown(c.userId, c.clientDeviceId.value);
      }
      assert isKnownDevice == Known(c);
      hide RiskMemory.IsKnown, Assess, Reasons, SignalsOf, Points, Words;
      AssessmentMeans(c, failedAttempts, previousIp, isKnownDevice, geo);
      a := Weigh(c, failedAttempts, previousIp, isKnownDevice);
    }

    /** The two lookups and the eight checks in turn. */
    method Weigh(c: Context, failedAttempts: nat, previousIp: Option<string>, isKnownDevice: bool)
      returns (a: Assessment)
      ensures a == Assess(Reasons(SignalsOf(c, failedAttempts, previousIp, isKnownDevice, geo)))
    {
      var here := Lookup(geo, c.ip);
      var previousGeo := NoResult;
      var moved := RiskMemory.Given(previousIp) && previousIp != c.ip;
      if moved {
        previousGeo := Lookup(geo, previousIp);
      }
      ghost var s := SignalsOf(c, failedAttempts, previousIp, isKnownDevice, geo);
      assert Total(Select(s, 0)) == 0 && Texts(Select(s, 0)) == [];
      hide Texts, Total, Select, Assess;
      var score, reasons := AddDeviceAndIp(s, isKnownDevice, moved, 0, []);
      score, reasons := AddGeo(s, here, previousGeo, score, reasons);
      score, reasons := AddFailures(s, failedAttempts, score, reasons);
      score, reasons := AddFlow(s, c.isResetFlow, c.isPasswordless, score, reasons);
      a := Conclude(score, reasons, Reasons(s));
    }
  }
}
