/*
 * The DHCP client as a state machine on values: the client's fields as a
 * record, and one function per member of IpDhcpClient giving the fields
 * after that member runs. The log `out` records the client's external
 * effects in order; the interface configuration is recovered from it by
 * replaying the address and gateway settings.
 */
module DhcpMachine {
  import opened DhcpTypes
  import opened DhcpRules
  import opened DhcpMessages

  /** What stays fixed over the client's life: parameters, identity, and whether a handler is set. */
  datatype Setup = Setup(params: Params, id: Identity, hasHandler: bool)

  /** The fields of IpDhcpClient, with the timer and the ARP observer as flags. */
  datatype Client = Client(
    state: DhcpState,
    xid: uint32,
    rtxTimeout: uint8,              // current retransmission timeout, seconds
    requestCount: uint8,            // messages sent with this xid, or ARP queries sent
    leaseTimePassed: uint32,        // lease seconds passed when the timer fires next
    requestSendTime: nat,           // when the last acknowledged-to-be request was sent
    requestSendTimePassed: uint32,  // lease seconds passed at that time (renewing)
    info: LeaseInfo,
    timerArmed: bool,
    timerAt: nat,                   // the time the timer was set to
    arpObserving: bool,
    out: seq<Action>)

  // ---------------------------------------------------------------- interface configuration

  /** What the client has configured on the interface: address and gateway. */
  datatype IfaceConfig = IfaceConfig(address: Option<AddrSetting>, gateway: Option<Ip4Addr>)

  const Unconfigured := IfaceConfig(None, None)

  function Apply(cfg: IfaceConfig, a: Action): IfaceConfig {
    match a
    case SetIp4Addr(setting) => cfg.(address := setting)
    case SetIp4Gateway(gateway) => cfg.(gateway := gateway)
    case _ => cfg
  }

  /** The configuration after performing the actions of a log in order. */
  function ConfigAfter(cfg: IfaceConfig, log: seq<Action>): IfaceConfig
    decreases |log|
  {
    if log == [] then cfg else ConfigAfter(Apply(cfg, log[0]), log[1..])
  }

  lemma {:induction false} ConfigAfterConcat(cfg: IfaceConfig, a: seq<Action>, b: seq<Action>)
    ensures ConfigAfter(cfg, a + b) == ConfigAfter(ConfigAfter(cfg, a), b)
    decreases |a|
  {
    if a == [] {
      assert a + b == b;
    } else {
      assert (a + b)[0] == a[0];
      assert (a + b)[1..] == a[1..] + b;
      ConfigAfterConcat(Apply(cfg, a[0]), a[1..], b);
    }
  }

  /** Appending one action applies it to the configuration reached so far. */
  lemma ConfigAfterSnoc(cfg: IfaceConfig, log: seq<Action>, a: Action)
    ensures ConfigAfter(cfg, log + [a]) == Apply(ConfigAfter(cfg, log), a)
  {
    ConfigAfterConcat(cfg, log, [a]);
    assert [a][1..] == [];
  }

  /** The configuration that belongs to a lease. */
  function LeaseConfig(info: LeaseInfo): IfaceConfig {
    IfaceConfig(Some(AddrSetting(CountLeadingOnes(info.subnetMask), info.ipAddress)),
                if info.haveRouter then Some(info.router) else None)
  }

  /** The interface is configured with the lease exactly while a lease is held. */
  function ExpectedConfig(c: Client): IfaceConfig {
    if HasLease(c.state) then LeaseConfig(c.info) else Unconfigured
  }

  // ---------------------------------------------------------------- sending

  function SendDiscover(k: Setup, c: Client): Client
    requires c.state == Selecting
  {
    c.(out := c.out + [Send(DiscoverMessage(k.id, c.xid))])
  }

  function SendRequest(k: Setup, c: Client): Client
    requires SendsRequests(c.state)
  {
    c.(out := c.out + [Send(RequestMessage(k.id, c.state, c.info, c.xid))])
  }

  function SendDecline(k: Setup, c: Client): Client
    requires c.state == Checking
  {
    c.(out := c.out + [Send(DeclineMessage(k.id, c.info, c.xid))])
  }

  /** Resends the message of the current state once the stack can send again (retrySending). */
  function RetrySending(k: Setup, c: Client): Client {
    if c.state == Selecting then SendDiscover(k, c)
    else if SendsRequests(c.state) then SendRequest(k, c)
    else c
  }

  // ---------------------------------------------------------------- lease up and down

  /** The effects of obtaining or renewing a lease (handle_dhcp_up). */
  function UpActions(k: Setup, info: LeaseInfo, renewed: bool): seq<Action> {
    [ SetIp4Addr(Some(AddrSetting(CountLeadingOnes(info.subnetMask), info.ipAddress))),
      SetIp4Gateway(if info.haveRouter then Some(info.router) else None) ] +
    (if k.hasHandler then [Callback(if renewed then LeaseRenewed else LeaseObtained)] else [])
  }

  function HandleDhcpUp(k: Setup, c: Client, renewed: bool): Client {
    c.(out := c.out + UpActions(k, c.info, renewed))
  }

  /** The effects of losing a lease (handle_dhcp_down). */
  function DownActions(k: Setup, callCallback: bool, linkDown: bool): seq<Action> {
    [SetIp4Gateway(None), SetIp4Addr(None)] +
    (if callCallback && k.hasHandler then [Callback(if linkDown then ClientEvent.LinkDown else LeaseLost)] else [])
  }

  function HandleDhcpDown(k: Setup, c: Client, callCallback: bool, linkDown: bool): Client {
    c.(out := c.out + DownActions(k, callCallback, linkDown))
  }

  // ---------------------------------------------------------------- discovery

  /** Sets the timer after rtxTimeout seconds (set_timer_for_rtx). */
  function SetTimerForRtx(k: Setup, c: Client, now: nat): Client
    requires k.params.Valid()
  {
    c.(timerArmed := true, timerAt := now + SecToTicks(k.params, c.rtxTimeout))
  }

  /**
   * Starts a new transaction with fresh xid x: discovery when no address is
   * known, otherwise rebooting with the remembered address
   * (start_discovery_or_rebooting).
   */
  function StartDiscoveryOrRebooting(k: Setup, c: Client, now: nat, x: uint32): Client
    requires k.params.Valid()
  {
    var c1 := c.(xid := x, requestCount := 1);
    var c2 := if c1.info.ipAddress == ZeroAddr
              then SendDiscover(k, c1.(state := Selecting))
              else SendRequest(k, c1.(state := Rebooting, requestSendTime := now));
    SetTimerForRtx(k, c2.(rtxTimeout := k.params.baseRtxTimeoutSeconds), now)
  }

  /** Forgets the remembered address and starts discovery (start_discovery). */
  function StartDiscovery(k: Setup, c: Client, now: nat, x: uint32): Client
    requires k.params.Valid()
  {
    StartDiscoveryOrRebooting(k, c.(info := c.info.(ipAddress := ZeroAddr)), now, x)
  }

  /** Restarts discovery; a lease that was held is lost (handle_expired_lease). */
  function HandleExpiredLease(k: Setup, c: Client, hadLease: bool, now: nat, x: uint32): Client
    requires k.params.Valid()
  {
    var c1 := StartDiscovery(k, c, now, x);
    if hadLease then HandleDhcpDown(k, c1, true, false) else c1
  }

  /** Restarts discovery now or after the reset timeout (go_resetting). */
  function GoResetting(k: Setup, c: Client, discoverImmediately: bool, now: nat, x: uint32): Client
    requires k.params.Valid()
  {
    var hadLease := HasLease(c.state);
    var c1 := if discoverImmediately then StartDiscovery(k, c, now, x)
              else c.(state := Resetting, timerArmed := true,
                      timerAt := now + SecToTicks(k.params, k.params.resetTimeoutSeconds));
    if hadLease then HandleDhcpDown(k, c1, true, false) else c1
  }

  /** Starts the ARP check of an acked address (go_checking). */
  function GoChecking(k: Setup, c: Client, now: nat): Client
    requires k.params.Valid()
  {
    c.(state := Checking, requestCount := 1, arpObserving := true, timerArmed := true,
       timerAt := now + SecToTicks(k.params, k.params.arpResponseTimeoutSeconds),
       out := c.out + [ArpQuery(c.info.ipAddress)])
  }

  /**
   * Enters Bound with the lease counted from when the request was sent,
   * or restarts discovery if the lease has already run out (go_bound).
   */
  function GoBound(k: Setup, c: Client, now: nat, x: uint32): Client
    requires k.params.Valid() && c.requestSendTime <= now
    requires c.state == Checking || c.state == Renewing || c.state == Rebinding || c.state == Rebooting
  {
    var p := k.params;
    var hadLease := HasLease(c.state);
    var passed := TicksToSec(p, now - c.requestSendTime);
    if passed >= c.info.leaseTimeS then
      HandleExpiredLease(k, c.(leaseTimePassed := passed), hadLease, now, x)
    else HandleDhcpUp(k, EnterBound(k, c, passed), hadLease)
  }

  /**
   * Enters Bound once `passed` lease seconds have gone by since the
   * request: the timer is set for T1, or as far towards it as it reaches,
   * counted from the time the request was sent.
   */
  function EnterBound(k: Setup, c: Client, passed: uint32): Client
    requires k.params.Valid()
  {
    var p := k.params;
    var rel := if passed <= c.info.renewalTimeS then c.info.renewalTimeS - passed else 0;
    var relClamped := Min(rel, p.MaxTimerSeconds());
    c.(state := Bound, leaseTimePassed := passed + relClamped, timerArmed := true,
       timerAt := c.requestSendTime + SecToTicksNoAssert(p, passed + relClamped))
  }

  // ---------------------------------------------------------------- timer

  /** Retransmits the discover, starting a new xid after XidReuseMax sends. */
  function HandleTimerSelecting(k: Setup, c: Client, now: nat, x: uint32): Client
    requires k.params.Valid() && c.state == Selecting
  {
    var c1 := if c.requestCount >= k.params.xidReuseMax then c.(requestCount := 1, xid := x)
              else c.(requestCount := (c.requestCount + 1) % 256);
    var c2 := SendDiscover(k, c1);
    SetTimerForRtx(k, c2.(rtxTimeout := DoubledRtxTimeout(k.params, c2.rtxTimeout)), now)
  }

  /** Retransmits the request, or gives up and restarts discovery after the limit. */
  function HandleTimerRebootingRequesting(k: Setup, c: Client, now: nat, x: uint32): Client
    requires k.params.Valid() && (c.state == Rebooting || c.state == Requesting)
  {
    var limit := if c.state == Rebooting then k.params.maxRebootRequests else k.params.maxRequests;
    if c.requestCount >= limit then StartDiscovery(k, c, now, x)
    else
      var c1 := SendRequest(k, c.(requestCount := c.requestCount + 1));
      SetTimerForRtx(k, c1.(rtxTimeout := DoubledRtxTimeout(k.params, c1.rtxTimeout)), now)
  }

  /** Sends the next ARP query, or binds after NumArpQueries unanswered queries. */
  function HandleTimerChecking(k: Setup, c: Client, now: nat, x: uint32): Client
    requires k.params.Valid() && c.state == Checking && c.requestSendTime <= now
  {
    if c.requestCount < k.params.numArpQueries then
      c.(requestCount := c.requestCount + 1, timerArmed := true,
         timerAt := now + SecToTicks(k.params, k.params.arpResponseTimeoutSeconds),
         out := c.out + [ArpQuery(c.info.ipAddress)])
    else
      GoBound(k, c.(arpObserving := false), now, x)
  }

  /**
   * The state a held lease moves to once `passed` of its seconds have gone
   * by, short of expiry: Rebinding from T2 on, Renewing from T1 on.
   */
  function LeaseStateAt(state: DhcpState, info: LeaseInfo, passed: uint32): (s: DhcpState)
    requires HasLease(state) && passed < info.leaseTimeS
    ensures HasLease(s)
    ensures s == Rebinding <==> state == Rebinding || passed >= info.rebindingTimeS
    ensures s == Renewing <==>
      state != Rebinding && passed < info.rebindingTimeS &&
      (state == Renewing || passed >= info.renewalTimeS)
    ensures s == Bound ==> passed < info.renewalTimeS
  {
    if state != Rebinding && passed >= info.rebindingTimeS then Rebinding
    else if state == Bound && passed >= info.renewalTimeS then Renewing
    else state
  }

  /** Seconds until the next request while renewing or rebinding, `untilNext` before the deadline. */
  function RenewRequestDelay(p: Params, untilNext: uint32): (d: uint32)
    requires p.Valid()
    ensures untilNext >= 1 ==> 1 <= d
    ensures d <= untilNext
    ensures d == untilNext || d >= p.minRenewRtxTimeoutSeconds
  {
    Min(untilNext, Max(p.minRenewRtxTimeoutSeconds, untilNext / 2))
  }

  /**
   * Seconds from the lease seconds passed until the lease timer fires next:
   * T1 when bound, otherwise the next request or deadline, never more than
   * the timer can be set ahead.
   */
  function NextLeaseTimerSeconds(p: Params, c: Client): (rel: uint32)
    requires p.Valid() && HasLease(c.state) && c.leaseTimePassed < c.info.leaseTimeS
    requires c.state == Bound ==> c.leaseTimePassed < c.info.renewalTimeS
    requires c.state == Renewing ==> c.leaseTimePassed < c.info.rebindingTimeS
    ensures 1 <= rel <= p.MaxTimerSeconds()
    ensures c.leaseTimePassed + rel <=
      (if c.state == Bound then c.info.renewalTimeS
       else if c.state == Renewing then c.info.rebindingTimeS else c.info.leaseTimeS)
  {
    var ltp := c.leaseTimePassed;
    var rel := if c.state == Bound then c.info.renewalTimeS - ltp
               else RenewRequestDelay(p, (if c.state == Renewing then c.info.rebindingTimeS
                                          else c.info.leaseTimeS) - ltp);
    Min(rel, p.MaxTimerSeconds())
  }

  /**
   * The lease timer: accounts for the seconds passed since the timer was
   * set, moves on to renewing or rebinding at T1 and T2, sends a request
   * when renewing or rebinding, and sets the timer for the next event, or
   * restarts discovery when the lease has expired.
   */
  function HandleTimerBoundRenewingRebinding(k: Setup, c: Client, now: nat, x: uint32): Client
    requires k.params.Valid() && HasLease(c.state) && c.timerAt <= now
    requires c.leaseTimePassed <= c.info.leaseTimeS
  {
    var p := k.params;
    var passed := TicksToSec(p, now - c.timerAt);
    if passed >= c.info.leaseTimeS - c.leaseTimePassed then HandleExpiredLease(k, c, true, now, x)
    else
      RearmLeaseTimer(k, AdvanceLease(c, passed, x), now, c.leaseTimePassed)
  }

  /**
   * The first half of the lease timer: accounts for `passed` more lease
   * seconds and enters Renewing or Rebinding when due, starting a new
   * transaction with the fresh xid x.
   */
  function AdvanceLease(c: Client, passed: uint32, x: uint32): Client
    requires HasLease(c.state) && passed < c.info.leaseTimeS - c.leaseTimePassed
  {
    var ltp: uint32 := c.leaseTimePassed + passed;
    var s := LeaseStateAt(c.state, c.info, ltp);
    c.(leaseTimePassed := ltp, state := s, xid := if s == c.state then c.xid else x)
  }

  /**
   * The second half of the lease timer, once the lease seconds passed are
   * accounted for: sends a request unless bound, and sets the timer for
   * the next event, counted from the time the timer was last set to, when
   * prevPassed lease seconds had passed.
   */
  function RearmLeaseTimer(k: Setup, c: Client, now: nat, prevPassed: uint32): Client
    requires k.params.Valid() && HasLease(c.state) && c.leaseTimePassed < c.info.leaseTimeS
    requires c.state == Bound ==> c.leaseTimePassed < c.info.renewalTimeS
    requires c.state == Renewing ==> c.leaseTimePassed < c.info.rebindingTimeS
    requires prevPassed <= c.leaseTimePassed
  {
    var rel := NextLeaseTimerSeconds(k.params, c);
    var c2 := if c.state == Bound then c
              else SendRequest(k, c).(requestSendTime := now, requestSendTimePassed := c.leaseTimePassed);
    c2.(leaseTimePassed := c.leaseTimePassed + rel, timerArmed := true,
        timerAt := c.timerAt + SecToTicksNoAssert(k.params, c.leaseTimePassed + rel - prevPassed))
  }

  /** The timer fired at time now (timerHandler). */
  function TimerHandler(k: Setup, c: Client, now: nat, x: uint32): Client
    requires k.params.Valid() && c.timerAt <= now && c.requestSendTime <= now
    requires HasLease(c.state) ==> c.leaseTimePassed <= c.info.leaseTimeS
    requires c.state != DhcpState.LinkDown
  {
    var c0 := c.(timerArmed := false);
    match c.state
    case Resetting => StartDiscovery(k, c0, now, x)
    case Selecting => HandleTimerSelecting(k, c0, now, x)
    case Rebooting => HandleTimerRebootingRequesting(k, c0, now, x)
    case Requesting => HandleTimerRebootingRequesting(k, c0, now, x)
    case Checking => HandleTimerChecking(k, c0, now, x)
    case Bound => HandleTimerBoundRenewingRebinding(k, c0, now, x)
    case Renewing => HandleTimerBoundRenewingRebinding(k, c0, now, x)
    case Rebinding => HandleTimerBoundRenewingRebinding(k, c0, now, x)
  }

  // ---------------------------------------------------------------- received messages

  /** The lease record taken from an accepted ack. */
  function AckedLeaseInfo(oldInfo: LeaseInfo, msg: InboundMessage, fixed: RecvOptions): (info: LeaseInfo)
    requires msg.Datagram?
  {
    oldInfo.(
      ipAddress := msg.yiaddr,
      dhcpServerIdentifier := fixed.dhcpServerIdentifier,
      dhcpServerAddr := msg.srcAddr,
      leaseTimeS := fixed.ipAddressLeaseTime,
      renewalTimeS := fixed.renewalTime,
      rebindingTimeS := fixed.rebindingTime,
      subnetMask := fixed.subnetMask,
      haveRouter := fixed.have.router,
      router := if fixed.have.router then fixed.router else ZeroAddr,
      domainNameServers := fixed.dnsServers,
      serverMac := msg.srcMac)
  }

  /** A DHCPNAK: restart, at once unless the client was still requesting an offer. */
  function HandleNak(k: Setup, c: Client, opts: RecvOptions, now: nat, x: uint32): Client
    requires k.params.Valid()
  {
    if !SendsRequests(c.state) then c
    else if c.state == Requesting && opts.dhcpServerIdentifier != c.info.dhcpServerIdentifier then c
    else GoResetting(k, c, c.state != Requesting, now, x)
  }

  /** A DHCPOFFER while selecting: request the offered address from that server. */
  function HandleOffer(k: Setup, c: Client, msg: InboundMessage, opts: RecvOptions, now: nat): Client
    requires k.params.Valid() && msg.Datagram? && c.state == Selecting
  {
    if !CheckOffer(msg.yiaddr) then c
    else
      var c1 := c.(info := c.info.(ipAddress := msg.yiaddr,
                                   dhcpServerIdentifier := opts.dhcpServerIdentifier),
                   state := Requesting, requestSendTime := now);
      var c2 := SendRequest(k, c1).(requestCount := 1);
      SetTimerForRtx(k, c2.(rtxTimeout := k.params.baseRtxTimeoutSeconds), now)
  }

  /** A DHCPACK to a request: take the lease, then check it with ARP or bind. */
  function HandleAck(k: Setup, c: Client, msg: InboundMessage, opts: RecvOptions, now: nat, x: uint32): Client
    requires k.params.Valid() && msg.Datagram? && SendsRequests(c.state) && c.requestSendTime <= now
  {
    match FixedAck(msg.yiaddr, opts)
    case None => c
    case Some(fixed) =>
      if c.state == Requesting &&
         (msg.yiaddr != c.info.ipAddress || fixed.dhcpServerIdentifier != c.info.dhcpServerIdentifier)
      then c
      else if (c.state == Renewing || c.state == Rebinding) &&
              c.leaseTimePassed - c.requestSendTimePassed > k.params.MaxTimerSeconds()
      then c
      else
        var c1 := c.(info := AckedLeaseInfo(c.info, msg, fixed));
        if c.state == Requesting then GoChecking(k, c1, now) else GoBound(k, c1, now, x)
  }

  /** A datagram from the server port (processReceivedDhcpMessage). */
  function ProcessReceivedDhcpMessage(k: Setup, c: Client, msg: InboundMessage, now: nat, x: uint32): Client
    requires k.params.Valid() && c.requestSendTime <= now
  {
    if !AwaitsReply(c.state) || !Acceptable(msg, c.xid, k.id.mac) then c
    else
      var opts := msg.options.value;
      if opts.dhcpMessageType == DhcpNak then HandleNak(k, c, opts, now, x)
      else if opts.dhcpMessageType == DhcpOffer then
        if c.state == Selecting then HandleOffer(k, c, msg, opts, now) else c
      else
        if SendsRequests(c.state) then HandleAck(k, c, msg, opts, now, x) else c
  }

  // ---------------------------------------------------------------- link and ARP

  /** The link went up or down (ifaceStateChanged). */
  function IfaceStateChanged(k: Setup, c: Client, linkUp: bool, now: nat, x: uint32): Client
    requires k.params.Valid()
  {
    if c.state == DhcpState.LinkDown then
      if linkUp then StartDiscoveryOrRebooting(k, c, now, x) else c
    else if linkUp then c
    else
      var hadLease := HasLease(c.state);
      var c1 := if !(hadLease || c.state == Rebooting) then c.(info := c.info.(ipAddress := ZeroAddr))
                else c;
      var c2 := c1.(state := DhcpState.LinkDown, arpObserving := false, timerArmed := false);
      if hadLease then HandleDhcpDown(k, c2, true, true) else c2
  }

  /** An ARP reply seen while checking: a reply for our address means it is taken (arpInfoReceived). */
  function ArpInfoReceived(k: Setup, c: Client, ipAddr: Ip4Addr, now: nat): Client
    requires k.params.Valid() && c.state == Checking
  {
    if ipAddr != c.info.ipAddress then c
    else GoResetting(k, SendDecline(k, c).(arpObserving := false), false, now, c.xid)
  }

  // ---------------------------------------------------------------- life cycle

  /** The client as constructed (the constructor): starts at once if the link is up. */
  function Initial(k: Setup, requestIpAddress: Ip4Addr, linkUp: bool, now: nat, x: uint32): Client
    requires k.params.Valid()
  {
    var info := LeaseInfo(requestIpAddress, 0, ZeroAddr, 0, 0, 0, ZeroAddr, 0, false, ZeroAddr, []);
    var c := Client(DhcpState.LinkDown, 0, k.params.baseRtxTimeoutSeconds, 0, 0, 0, 0, info,
                    false, 0, false, []);
    if linkUp then StartDiscoveryOrRebooting(k, c, now, x) else c
  }

  /** The effects of destroying the client: the address is removed, no callback. */
  function Destroyed(k: Setup, c: Client): Client {
    HandleDhcpDown(k, c, false, false)
  }
}
