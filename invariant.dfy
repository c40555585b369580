/*
 * The invariant of the DHCP client state machine and its preservation by
 * every entry point: the constructor, the timer, received datagrams, link
 * changes, ARP replies and send retries.
 */
module DhcpInvariant {
  import opened DhcpTypes
  import opened DhcpRules
  import opened DhcpMessages
  import opened DhcpMachine

  /** A lease record as checkAndFixupAck lets it through. */
  ghost predicate ValidLease(info: LeaseInfo) {
    && CheckOffer(info.ipAddress)
    && IsPrefixMask(info.subnetMask)
    && info.ipAddress != LocalBroadcast(info.subnetMask, info.ipAddress)
    && info.renewalTimeS <= info.rebindingTimeS <= info.leaseTimeS
  }

  /** Everything the invariant says except the interface configuration. */
  ghost predicate InvFields(k: Setup, c: Client) {
    var p := k.params;
    && p.Valid()
    // the timer runs in every state but LinkDown, the ARP observer only while checking
    && (c.timerArmed <==> c.state != DhcpState.LinkDown)
    && (c.arpObserving <==> c.state == Checking)
    // retransmission timeout within its bounds
    && p.baseRtxTimeoutSeconds <= c.rtxTimeout <= p.maxRtxTimeoutSeconds
    // message and query counters within their limits
    && (c.state == Selecting ==> 1 <= c.requestCount <= p.xidReuseMax)
    && (c.state == Requesting ==> 1 <= c.requestCount <= p.maxRequests)
    && (c.state == Rebooting ==> 1 <= c.requestCount <= p.maxRebootRequests)
    && (c.state == Checking ==> 1 <= c.requestCount <= p.numArpQueries)
    // a lease being checked or held passed the ack checks
    && (c.state == Checking || HasLease(c.state) ==> ValidLease(c.info))
    // lease accounting
    && (HasLease(c.state) ==> c.leaseTimePassed <= c.info.leaseTimeS)
    && (c.state == Renewing || c.state == Rebinding ==> c.requestSendTimePassed <= c.leaseTimePassed)
  }

  /** The invariant: the fields are consistent and the interface carries the lease exactly while one is held. */
  ghost predicate Inv(k: Setup, c: Client) {
    InvFields(k, c) && ConfigAfter(Unconfigured, c.out) == ExpectedConfig(c)
  }

  // ---------------------------------------------------------------- configuration effects

  lemma ConfigAfterNeutral(cfg: IfaceConfig, log: seq<Action>, a: Action)
    requires !a.SetIp4Addr? && !a.SetIp4Gateway?
    ensures ConfigAfter(cfg, log + [a]) == ConfigAfter(cfg, log)
  {
    ConfigAfterSnoc(cfg, log, a);
  }

  lemma ConfigAfterUp(k: Setup, cfg: IfaceConfig, log: seq<Action>, info: LeaseInfo, renewed: bool)
    ensures ConfigAfter(cfg, log + UpActions(k, info, renewed)) == LeaseConfig(info)
  {
    var up := UpActions(k, info, renewed);
    var mid := ConfigAfter(cfg, log);
    ConfigAfterConcat(cfg, log, up);
    assert up[1..][1..] == up[2..];
    assert ConfigAfter(mid, up) == ConfigAfter(Apply(Apply(mid, up[0]), up[1]), up[2..]);
  }

  lemma ConfigAfterDown(k: Setup, cfg: IfaceConfig, log: seq<Action>, callCallback: bool, linkDown: bool)
    ensures ConfigAfter(cfg, log + DownActions(k, callCallback, linkDown)) == Unconfigured
  {
    var down := DownActions(k, callCallback, linkDown);
    var mid := ConfigAfter(cfg, log);
    ConfigAfterConcat(cfg, log, down);
    assert down[1..][1..] == down[2..];
    assert ConfigAfter(mid, down) == ConfigAfter(Apply(Apply(mid, down[0]), down[1]), down[2..]);
  }

  lemma StartDiscoveryOrRebootingConfig(k: Setup, c: Client, now: nat, x: uint32)
    requires k.params.Valid()
    ensures ConfigAfter(Unconfigured, StartDiscoveryOrRebooting(k, c, now, x).out)
         == ConfigAfter(Unconfigured, c.out)
  {
    var r := StartDiscoveryOrRebooting(k, c, now, x);
    ConfigAfterNeutral(Unconfigured, c.out, r.out[|c.out|]);
    assert r.out == c.out + [r.out[|c.out|]];
  }

  lemma HandleExpiredLeaseConfig(k: Setup, c: Client, hadLease: bool, now: nat, x: uint32)
    requires k.params.Valid()
    ensures ConfigAfter(Unconfigured, HandleExpiredLease(k, c, hadLease, now, x).out)
         == if hadLease then Unconfigured else ConfigAfter(Unconfigured, c.out)
  {
    var c1 := StartDiscovery(k, c, now, x);
    StartDiscoveryOrRebootingConfig(k, c.(info := c.info.(ipAddress := ZeroAddr)), now, x);
    if hadLease {
      ConfigAfterDown(k, Unconfigured, c1.out, true, false);
    }
  }

  lemma GoResettingConfig(k: Setup, c: Client, discoverImmediately: bool, now: nat, x: uint32)
    requires k.params.Valid()
    ensures ConfigAfter(Unconfigured, GoResetting(k, c, discoverImmediately, now, x).out)
         == if HasLease(c.state) then Unconfigured else ConfigAfter(Unconfigured, c.out)
  {
    var c1 := if discoverImmediately then StartDiscovery(k, c, now, x)
              else c.(state := Resetting, timerArmed := true,
                      timerAt := now + SecToTicks(k.params, k.params.resetTimeoutSeconds));
    if discoverImmediately {
      StartDiscoveryOrRebootingConfig(k, c.(info := c.info.(ipAddress := ZeroAddr)), now, x);
    }
    if HasLease(c.state) {
      ConfigAfterDown(k, Unconfigured, c1.out, true, false);
    }
  }

  // ---------------------------------------------------------------- building blocks

  /** Discovery or rebooting starts from any non-lease configuration with a consistent new state. */
  lemma StartDiscoveryOrRebootingInv(k: Setup, c: Client, now: nat, x: uint32)
    requires k.params.Valid() && !c.arpObserving
    requires ConfigAfter(Unconfigured, c.out) == Unconfigured
    ensures Inv(k, StartDiscoveryOrRebooting(k, c, now, x))
  {
    StartDiscoveryOrRebootingConfig(k, c, now, x);
  }

  lemma HandleExpiredLeaseInv(k: Setup, c: Client, hadLease: bool, now: nat, x: uint32)
    requires k.params.Valid() && !c.arpObserving
    requires !hadLease ==> ConfigAfter(Unconfigured, c.out) == Unconfigured
    ensures Inv(k, HandleExpiredLease(k, c, hadLease, now, x))
  {
    HandleExpiredLeaseConfig(k, c, hadLease, now, x);
  }

  /** Binding from Checking, Rebooting, Renewing or Rebinding keeps the invariant. */
  lemma GoBoundInv(k: Setup, c: Client, now: nat, x: uint32)
    requires k.params.Valid() && c.requestSendTime <= now && !c.arpObserving
    requires c.state == Checking || c.state == Renewing || c.state == Rebinding || c.state == Rebooting
    requires k.params.baseRtxTimeoutSeconds <= c.rtxTimeout <= k.params.maxRtxTimeoutSeconds
    requires ValidLease(c.info)
    requires !HasLease(c.state) ==> ConfigAfter(Unconfigured, c.out) == Unconfigured
    ensures Inv(k, GoBound(k, c, now, x))
  {
    var passed := TicksToSec(k.params, now - c.requestSendTime);
    GoBoundUnfolds(k, c, now, x);
    if passed >= c.info.leaseTimeS {
      HandleExpiredLeaseInv(k, c.(leaseTimePassed := passed), HasLease(c.state), now, x);
    } else {
      EnterBoundInv(k, c, passed, HasLease(c.state));
    }
  }

  /** Binding restarts discovery once the lease has run out, and enters Bound otherwise. */
  lemma GoBoundUnfolds(k: Setup, c: Client, now: nat, x: uint32)
    requires k.params.Valid() && c.requestSendTime <= now
    requires c.state == Checking || c.state == Renewing || c.state == Rebinding || c.state == Rebooting
    ensures var passed := TicksToSec(k.params, now - c.requestSendTime);
      GoBound(k, c, now, x) ==
        if passed >= c.info.leaseTimeS then HandleExpiredLease(k, c.(leaseTimePassed := passed), HasLease(c.state), now, x)
        else HandleDhcpUp(k, EnterBound(k, c, passed), HasLease(c.state))
  {
  }

  /** Entering Bound with an acked lease, and applying it, keeps the invariant. */
  lemma EnterBoundInv(k: Setup, c: Client, passed: uint32, renewed: bool)
    requires k.params.Valid() && !c.arpObserving && passed < c.info.leaseTimeS
    requires k.params.baseRtxTimeoutSeconds <= c.rtxTimeout <= k.params.maxRtxTimeoutSeconds
    requires ValidLease(c.info)
    ensures Inv(k, HandleDhcpUp(k, EnterBound(k, c, passed), renewed))
  {
    var b := EnterBound(k, c, passed);
    assert InvFields(k, b);
    ConfigAfterUp(k, Unconfigured, b.out, b.info, renewed);
  }

  // ---------------------------------------------------------------- entry points

  /** The constructor establishes the invariant. */
  lemma InitialInv(k: Setup, requestIpAddress: Ip4Addr, linkUp: bool, now: nat, x: uint32)
    requires k.params.Valid()
    ensures Inv(k, Initial(k, requestIpAddress, linkUp, now, x))
  {
    var info := LeaseInfo(requestIpAddress, 0, ZeroAddr, 0, 0, 0, ZeroAddr, 0, false, ZeroAddr, []);
    var c := Client(DhcpState.LinkDown, 0, k.params.baseRtxTimeoutSeconds, 0, 0, 0, 0, info,
                    false, 0, false, []);
    if linkUp {
      StartDiscoveryOrRebootingInv(k, c, now, x);
    }
  }

  lemma ResettingTimerInv(k: Setup, c: Client, now: nat, x: uint32)
    requires Inv(k, c) && c.state == Resetting
    ensures Inv(k, StartDiscovery(k, c.(timerArmed := false), now, x))
  {
    var c0 := c.(timerArmed := false);
    StartDiscoveryOrRebootingInv(k, c0.(info := c0.info.(ipAddress := ZeroAddr)), now, x);
  }

  lemma SelectingTimerInv(k: Setup, c: Client, now: nat, x: uint32)
    requires Inv(k, c) && c.state == Selecting
    ensures Inv(k, HandleTimerSelecting(k, c.(timerArmed := false), now, x))
  {
    var c0 := c.(timerArmed := false);
    var c1 := if c0.requestCount >= k.params.xidReuseMax then c0.(requestCount := 1, xid := x)
              else c0.(requestCount := (c0.requestCount + 1) % 256);
    ConfigAfterNeutral(Unconfigured, c.out, Send(DiscoverMessage(k.id, c1.xid)));
  }

  lemma RebootingRequestingTimerInv(k: Setup, c: Client, now: nat, x: uint32)
    requires Inv(k, c) && (c.state == Rebooting || c.state == Requesting)
    ensures Inv(k, HandleTimerRebootingRequesting(k, c.(timerArmed := false), now, x))
  {
    var c0 := c.(timerArmed := false);
    var limit := if c.state == Rebooting then k.params.maxRebootRequests else k.params.maxRequests;
    if c.requestCount >= limit {
      StartDiscoveryOrRebootingInv(k, c0.(info := c0.info.(ipAddress := ZeroAddr)), now, x);
    } else {
      var c1 := SendRequest(k, c0.(requestCount := c0.requestCount + 1));
      ConfigAfterNeutral(Unconfigured, c.out, c1.out[|c.out|]);
      assert c1.out == c.out + [c1.out[|c.out|]];
    }
  }

  lemma CheckingTimerInv(k: Setup, c: Client, now: nat, x: uint32)
    requires Inv(k, c) && c.state == Checking && c.requestSendTime <= now
    ensures Inv(k, HandleTimerChecking(k, c.(timerArmed := false), now, x))
  {
    var c0 := c.(timerArmed := false);
    if c.requestCount < k.params.numArpQueries {
      ConfigAfterNeutral(Unconfigured, c.out, ArpQuery(c.info.ipAddress));
    } else {
      GoBoundInv(k, c0.(arpObserving := false), now, x);
    }
  }

  /** The lease timer short of expiry, step by step. */
  lemma LeaseTimerRunningStep(k: Setup, c: Client, now: nat, x: uint32)
    requires k.params.Valid() && HasLease(c.state) && c.timerAt <= now
    requires c.leaseTimePassed <= c.info.leaseTimeS
    requires TicksToSec(k.params, now - c.timerAt) < c.info.leaseTimeS - c.leaseTimePassed
    ensures var p := k.params;
      var passed := TicksToSec(p, now - c.timerAt);
      var ltp: uint32 := c.leaseTimePassed + passed;
      var c1 := AdvanceLease(c, passed, x);
      var rel := NextLeaseTimerSeconds(p, c1);
      var c2 := if c1.state == Bound then c1
                else SendRequest(k, c1).(requestSendTime := now, requestSendTimePassed := ltp);
      HandleTimerBoundRenewingRebinding(k, c, now, x) ==
        c2.(leaseTimePassed := ltp + rel, timerArmed := true,
            timerAt := c.timerAt + SecToTicksNoAssert(p, passed + rel))
  {
  }

  /** Short of expiry, the lease timer is the state advance followed by RearmLeaseTimer. */
  lemma ContinueLeaseUnfolds(k: Setup, c: Client, now: nat, x: uint32)
    requires k.params.Valid() && HasLease(c.state) && c.timerAt <= now
    requires c.leaseTimePassed <= c.info.leaseTimeS
    requires TicksToSec(k.params, now - c.timerAt) < c.info.leaseTimeS - c.leaseTimePassed
    ensures HandleTimerBoundRenewingRebinding(k, c, now, x) ==
      RearmLeaseTimer(k, AdvanceLease(c, TicksToSec(k.params, now - c.timerAt), x), now, c.leaseTimePassed)
  {
  }

  lemma LeaseTimerRunningInv(k: Setup, c: Client, now: nat, x: uint32)
    requires Inv(k, c) && HasLease(c.state) && c.timerAt <= now
    requires TicksToSec(k.params, now - c.timerAt) < c.info.leaseTimeS - c.leaseTimePassed
    ensures Inv(k, HandleTimerBoundRenewingRebinding(k, c.(timerArmed := false), now, x))
  {
    var c0 := c.(timerArmed := false);
    var c1 := AdvanceLease(c0, TicksToSec(k.params, now - c0.timerAt), x);
    ContinueLeaseUnfolds(k, c0, now, x);
    RearmLeaseTimerInv(k, c1, now, c0.leaseTimePassed);
  }

  /** Re-arming the lease timer keeps the invariant. */
  lemma RearmLeaseTimerInv(k: Setup, c: Client, now: nat, prevPassed: uint32)
    requires k.params.Valid() && HasLease(c.state) && c.leaseTimePassed < c.info.leaseTimeS
    requires c.state == Bound ==> c.leaseTimePassed < c.info.renewalTimeS
    requires c.state == Renewing ==> c.leaseTimePassed < c.info.rebindingTimeS
    requires prevPassed <= c.leaseTimePassed
    requires InvFields(k, c.(timerArmed := true, requestSendTimePassed := c.leaseTimePassed))
    requires ConfigAfter(Unconfigured, c.out) == LeaseConfig(c.info)
    ensures Inv(k, RearmLeaseTimer(k, c, now, prevPassed))
  {
    RearmLeaseTimerFields(k, c, now, prevPassed);
    if c.state != Bound {
      ConfigAfterNeutral(Unconfigured, c.out, Send(RequestMessage(k.id, c.state, c.info, c.xid)));
    }
  }

  lemma RearmLeaseTimerFields(k: Setup, c: Client, now: nat, prevPassed: uint32)
    requires k.params.Valid() && HasLease(c.state) && c.leaseTimePassed < c.info.leaseTimeS
    requires c.state == Bound ==> c.leaseTimePassed < c.info.renewalTimeS
    requires c.state == Renewing ==> c.leaseTimePassed < c.info.rebindingTimeS
    requires prevPassed <= c.leaseTimePassed
    requires InvFields(k, c.(timerArmed := true, requestSendTimePassed := c.leaseTimePassed))
    ensures InvFields(k, RearmLeaseTimer(k, c, now, prevPassed))
  {
  }

  lemma LeaseTimerInv(k: Setup, c: Client, now: nat, x: uint32)
    requires Inv(k, c) && HasLease(c.state) && c.timerAt <= now
    ensures Inv(k, HandleTimerBoundRenewingRebinding(k, c.(timerArmed := false), now, x))
  {
    if TicksToSec(k.params, now - c.timerAt) >= c.info.leaseTimeS - c.leaseTimePassed {
      LeaseTimerExpiredInv(k, c, now, x);
    } else {
      LeaseTimerRunningInv(k, c, now, x);
    }
  }

  lemma LeaseTimerExpiredInv(k: Setup, c: Client, now: nat, x: uint32)
    requires Inv(k, c) && HasLease(c.state) && c.timerAt <= now
    requires TicksToSec(k.params, now - c.timerAt) >= c.info.leaseTimeS - c.leaseTimePassed
    ensures Inv(k, HandleTimerBoundRenewingRebinding(k, c.(timerArmed := false), now, x))
  {
    LeaseExpiryUnfolds(k, c.(timerArmed := false), now, x);
    HandleExpiredLeaseInv(k, c.(timerArmed := false), true, now, x);
  }

  /** Once the lease runs out the lease timer is handle_expired_lease. */
  lemma LeaseExpiryUnfolds(k: Setup, c: Client, now: nat, x: uint32)
    requires k.params.Valid() && HasLease(c.state) && c.timerAt <= now
    requires c.leaseTimePassed <= c.info.leaseTimeS
    requires TicksToSec(k.params, now - c.timerAt) >= c.info.leaseTimeS - c.leaseTimePassed
    ensures HandleTimerBoundRenewingRebinding(k, c, now, x) == HandleExpiredLease(k, c, true, now, x)
  {
  }

  /** The timer handler keeps the invariant. */
  lemma TimerHandlerInv(k: Setup, c: Client, now: nat, x: uint32)
    requires Inv(k, c) && c.timerArmed && c.timerAt <= now && c.requestSendTime <= now
    ensures Inv(k, TimerHandler(k, c, now, x))
  {
    match c.state
    case Resetting => ResettingTimerInv(k, c, now, x);
    case Selecting => SelectingTimerInv(k, c, now, x);
    case Rebooting => RebootingRequestingTimerInv(k, c, now, x);
    case Requesting => RebootingRequestingTimerInv(k, c, now, x);
    case Checking => CheckingTimerInv(k, c, now, x);
    case Bound => LeaseTimerInv(k, c, now, x);
    case Renewing => LeaseTimerInv(k, c, now, x);
    case Rebinding => LeaseTimerInv(k, c, now, x);
  }

  /** The retry after a failed send keeps the invariant. */
  lemma RetrySendingInv(k: Setup, c: Client)
    requires Inv(k, c)
    ensures Inv(k, RetrySending(k, c))
  {
    if c.state == Selecting {
      SendKeepsInv(k, c, Send(DiscoverMessage(k.id, c.xid)));
    } else if SendsRequests(c.state) {
      SendKeepsInv(k, c, Send(RequestMessage(k.id, c.state, c.info, c.xid)));
    }
  }

  /** Logging an action that leaves the interface alone keeps the invariant. */
  lemma SendKeepsInv(k: Setup, c: Client, a: Action)
    requires Inv(k, c) && !a.SetIp4Addr? && !a.SetIp4Gateway?
    ensures Inv(k, c.(out := c.out + [a]))
  {
    ConfigAfterNeutral(Unconfigured, c.out, a);
  }

  /** A link change keeps the invariant. */
  lemma IfaceStateChangedInv(k: Setup, c: Client, linkUp: bool, now: nat, x: uint32)
    requires Inv(k, c)
    ensures Inv(k, IfaceStateChanged(k, c, linkUp, now, x))
  {
    if c.state == DhcpState.LinkDown {
      if linkUp {
        StartDiscoveryOrRebootingInv(k, c, now, x);
      }
    } else if !linkUp && HasLease(c.state) {
      ConfigAfterDown(k, Unconfigured, c.out, true, true);
    }
  }

  /** An ARP reply seen while checking keeps the invariant. */
  lemma ArpInfoReceivedInv(k: Setup, c: Client, ipAddr: Ip4Addr, now: nat)
    requires Inv(k, c) && c.state == Checking
    ensures Inv(k, ArpInfoReceived(k, c, ipAddr, now))
  {
    if ipAddr == c.info.ipAddress {
      var c1 := SendDecline(k, c).(arpObserving := false);
      ConfigAfterNeutral(Unconfigured, c.out, Send(DeclineMessage(k.id, c.info, c.xid)));
      GoResettingConfig(k, c1, false, now, c.xid);
    }
  }

  lemma NakInv(k: Setup, c: Client, opts: RecvOptions, now: nat, x: uint32)
    requires Inv(k, c)
    ensures Inv(k, HandleNak(k, c, opts, now, x))
  {
    if SendsRequests(c.state) {
      GoResettingInv(k, c, c.state != Requesting, now, x);
    }
  }

  /** Going to Resetting, or straight to discovery, from any state but Checking keeps the invariant. */
  lemma GoResettingInv(k: Setup, c: Client, discoverImmediately: bool, now: nat, x: uint32)
    requires Inv(k, c) && c.state != Checking
    ensures Inv(k, GoResetting(k, c, discoverImmediately, now, x))
  {
    if discoverImmediately {
      assert GoResetting(k, c, discoverImmediately, now, x) == HandleExpiredLease(k, c, HasLease(c.state), now, x);
      HandleExpiredLeaseInv(k, c, HasLease(c.state), now, x);
    } else if HasLease(c.state) {
      ConfigAfterDown(k, Unconfigured, c.out, true, false);
    }
  }

  lemma OfferInv(k: Setup, c: Client, msg: InboundMessage, opts: RecvOptions, now: nat)
    requires Inv(k, c) && msg.Datagram? && c.state == Selecting
    ensures Inv(k, HandleOffer(k, c, msg, opts, now))
  {
    if CheckOffer(msg.yiaddr) {
      var c1 := c.(info := c.info.(ipAddress := msg.yiaddr,
                                   dhcpServerIdentifier := opts.dhcpServerIdentifier),
                   state := Requesting, requestSendTime := now);
      ConfigAfterNeutral(Unconfigured, c.out, Send(RequestMessage(k.id, c1.state, c1.info, c1.xid)));
    }
  }

  /** The lease record taken from an accepted ack passes the ack checks. */
  lemma AckedLeaseInfoValid(oldInfo: LeaseInfo, msg: InboundMessage, opts: RecvOptions)
    requires msg.Datagram? && FixedAck(msg.yiaddr, opts).Some?
    ensures ValidLease(AckedLeaseInfo(oldInfo, msg, FixedAck(msg.yiaddr, opts).value))
  {
    FixedAckAddressing(msg.yiaddr, opts);
    FixedAckTimes(msg.yiaddr, opts);
  }

  lemma AckInv(k: Setup, c: Client, msg: InboundMessage, opts: RecvOptions, now: nat, x: uint32)
    requires Inv(k, c) && msg.Datagram? && SendsRequests(c.state) && c.requestSendTime <= now
    ensures Inv(k, HandleAck(k, c, msg, opts, now, x))
  {
    var f := FixedAck(msg.yiaddr, opts);
    if f.Some? &&
       !(c.state == Requesting &&
         (msg.yiaddr != c.info.ipAddress || f.value.dhcpServerIdentifier != c.info.dhcpServerIdentifier)) &&
       !((c.state == Renewing || c.state == Rebinding) &&
         c.leaseTimePassed - c.requestSendTimePassed > k.params.MaxTimerSeconds())
    {
      var c1 := c.(info := AckedLeaseInfo(c.info, msg, f.value));
      AckUnfolds(k, c, msg, opts, now, x);
      AckedLeaseInfoValid(c.info, msg, opts);
      if c.state == Requesting {
        GoCheckingInv(k, c1, now);
      } else {
        GoBoundInv(k, c1, now, x);
      }
    }
  }

  /** An ack that passes every check is taken: ARP check from Requesting, otherwise binding. */
  lemma AckUnfolds(k: Setup, c: Client, msg: InboundMessage, opts: RecvOptions, now: nat, x: uint32)
    requires k.params.Valid() && msg.Datagram? && SendsRequests(c.state) && c.requestSendTime <= now
    requires FixedAck(msg.yiaddr, opts).Some?
    requires !(c.state == Requesting &&
               (msg.yiaddr != c.info.ipAddress ||
                FixedAck(msg.yiaddr, opts).value.dhcpServerIdentifier != c.info.dhcpServerIdentifier))
    requires !((c.state == Renewing || c.state == Rebinding) &&
               c.leaseTimePassed - c.requestSendTimePassed > k.params.MaxTimerSeconds())
    ensures var c1 := c.(info := AckedLeaseInfo(c.info, msg, FixedAck(msg.yiaddr, opts).value));
      HandleAck(k, c, msg, opts, now, x) ==
        if c.state == Requesting then GoChecking(k, c1, now) else GoBound(k, c1, now, x)
  {
  }

  /** Starting the ARP check of an acked lease from Requesting keeps the invariant. */
  lemma GoCheckingInv(k: Setup, c: Client, now: nat)
    requires k.params.Valid() && c.state == Requesting && ValidLease(c.info)
    requires k.params.baseRtxTimeoutSeconds <= c.rtxTimeout <= k.params.maxRtxTimeoutSeconds
    requires ConfigAfter(Unconfigured, c.out) == Unconfigured
    ensures Inv(k, GoChecking(k, c, now))
  {
    ConfigAfterNeutral(Unconfigured, c.out, ArpQuery(c.info.ipAddress));
  }

  /** Processing a received datagram keeps the invariant. */
  lemma ProcessReceivedDhcpMessageInv(k: Setup, c: Client, msg: InboundMessage, now: nat, x: uint32)
    requires Inv(k, c) && c.requestSendTime <= now
    ensures Inv(k, ProcessReceivedDhcpMessage(k, c, msg, now, x))
  {
    if AwaitsReply(c.state) && Acceptable(msg, c.xid, k.id.mac) {
      var opts := msg.options.value;
      if opts.dhcpMessageType == DhcpNak {
        NakInv(k, c, opts, now, x);
      } else if opts.dhcpMessageType == DhcpOffer {
        if c.state == Selecting {
          OfferInv(k, c, msg, opts, now);
        }
      } else if SendsRequests(c.state) {
        AckInv(k, c, msg, opts, now, x);
      }
    }
  }
}
