/*
 * The DHCP client as an object: the fields of IpDhcpClient updated in
 * place, one method per member function. Every method is proved to leave
 * the fields as the matching function of DhcpMachine says, and the entry
 * points (timer, received message, link change, ARP reply, send retry)
 * keep the invariant of DhcpInvariant.
 */
module DhcpClient {
  import opened DhcpTypes
  import opened DhcpRules
  import opened DhcpMessages
  import opened DhcpMachine
  import opened DhcpInvariant
  import opened DhcpProperties

  class IpDhcpClient {
    const setup: Setup

    var state: DhcpState
    var xid: uint32
    var rtxTimeout: uint8
    var requestCount: uint8
    var leaseTimePassed: uint32
    var requestSendTime: nat
    var requestSendTimePassed: uint32
    var info: LeaseInfo
    var timerArmed: bool
    var timerAt: nat
    var arpObserving: bool
    var out: seq<Action>    // the effects performed so far, in order

    /** The fields as a value of the state machine. */
    function Fields(): Client
      reads this
    {
      Client(state, xid, rtxTimeout, requestCount, leaseTimePassed, requestSendTime,
             requestSendTimePassed, info, timerArmed, timerAt, arpObserving, out)
    }

    ghost predicate Valid()
      reads this
    {
      Inv(setup, Fields())
    }

    /** Starts at once when the link is up, otherwise waits in LinkDown. */
    constructor (k: Setup, requestIpAddress: Ip4Addr, linkUp: bool, now: nat, x: uint32)
      requires k.params.Valid()
      ensures setup == k
      ensures Fields() == Initial(k, requestIpAddress, linkUp, now, x)
      ensures Valid()
    {
      setup := k;
      state := DhcpState.LinkDown;
      xid := 0;
      rtxTimeout := k.params.baseRtxTimeoutSeconds;
      requestCount := 0;
      leaseTimePassed := 0;
      requestSendTime := 0;
      requestSendTimePassed := 0;
      info := LeaseInfo(requestIpAddress, 0, ZeroAddr, 0, 0, 0, ZeroAddr, 0, false, ZeroAddr, []);
      timerArmed := false;
      timerAt := 0;
      arpObserving := false;
      out := [];
      new;
      if linkUp {
        StartDiscoveryOrRebooting(now, x);
      }
      InitialInv(k, requestIpAddress, linkUp, now, x);
    }

    /** Removes the address and gateway, without a callback (the destructor). */
    method Destroy()
      modifies this
      ensures Fields() == Destroyed(setup, old(Fields()))
      ensures ConfigAfter(Unconfigured, out) == Unconfigured
    {
      HandleDhcpDown(false, false);
      DestroyUnconfigures(setup, old(Fields()));
    }

    /** A lease is held exactly while the interface carries an address. */
    method HasLease() returns (r: bool)
      requires Valid()
      ensures r == DhcpTypes.HasLease(state)
      ensures r <==> ConfigAfter(Unconfigured, out).address.Some?
    {
      r := state == Bound || state == Renewing || state == Rebinding;
      LeaseMatchesConfig(setup, Fields());
    }

    /** The lease record, which is what the interface is configured with. */
    method LeaseInfoMustHaveLease() returns (r: LeaseInfo)
      requires Valid() && DhcpTypes.HasLease(state)
      ensures r == info && ValidLease(r)
      ensures ConfigAfter(Unconfigured, out) == LeaseConfig(r)
      ensures PrefixMask(LeaseConfig(r).address.value.prefix) == r.subnetMask
    {
      r := info;
      LeaseMatchesConfig(setup, Fields());
    }

    // ---------------------------------------------------------------- retransmission timeout

    method ResetRtxTimeout()
      modifies this
      ensures Fields() == old(Fields()).(rtxTimeout := setup.params.baseRtxTimeoutSeconds)
    {
      rtxTimeout := setup.params.baseRtxTimeoutSeconds;
    }

    method DoubleRtxTimeout()
      requires setup.params.Valid()
      modifies this
      ensures Fields() == old(Fields()).(rtxTimeout := DoubledRtxTimeout(setup.params, old(rtxTimeout)))
    {
      var max := setup.params.maxRtxTimeoutSeconds;
      rtxTimeout := if rtxTimeout > max / 2 then max else 2 * rtxTimeout;
    }

    method SetTimerForRtx(now: nat)
      requires setup.params.Valid()
      modifies this
      ensures Fields() == DhcpMachine.SetTimerForRtx(setup, old(Fields()), now)
    {
      timerArmed := true;
      timerAt := now + SecToTicks(setup.params, rtxTimeout);
    }

    // ---------------------------------------------------------------- sending

    method SendDiscover()
      requires state == Selecting
      modifies this
      ensures Fields() == DhcpMachine.SendDiscover(setup, old(Fields()))
    {
      out := out + [Send(DiscoverMessage(setup.id, xid))];
    }

    method SendRequest()
      requires SendsRequests(state)
      modifies this
      ensures Fields() == DhcpMachine.SendRequest(setup, old(Fields()))
    {
      out := out + [Send(RequestMessage(setup.id, state, info, xid))];
    }

    method SendDecline()
      requires state == Checking
      modifies this
      ensures Fields() == DhcpMachine.SendDecline(setup, old(Fields()))
    {
      out := out + [Send(DeclineMessage(setup.id, info, xid))];
    }

    /** Resends the current state's message after a send error (retrySending). */
    method RetrySending()
      requires Valid()
      modifies this
      ensures Fields() == DhcpMachine.RetrySending(setup, old(Fields()))
      ensures Valid()
    {
      RetrySendingInv(setup, Fields());
      if state == Selecting {
        SendDiscover();
      } else if SendsRequests(state) {
        SendRequest();
      }
    }

    // ---------------------------------------------------------------- lease up and down

    method HandleDhcpUp(renewed: bool)
      modifies this
      ensures Fields() == DhcpMachine.HandleDhcpUp(setup, old(Fields()), renewed)
    {
      var prefix := CountLeadingOnes(info.subnetMask);
      out := out + [SetIp4Addr(Some(AddrSetting(prefix, info.ipAddress)))];
      var gateway := if info.haveRouter then Some(info.router) else None;
      out := out + [SetIp4Gateway(gateway)];
      if setup.hasHandler {
        out := out + [Callback(if renewed then LeaseRenewed else LeaseObtained)];
      }
    }

    method HandleDhcpDown(callCallback: bool, linkDown: bool)
      modifies this
      ensures Fields() == DhcpMachine.HandleDhcpDown(setup, old(Fields()), callCallback, linkDown)
    {
      out := out + [SetIp4Gateway(None)];
      out := out + [SetIp4Addr(None)];
      if callCallback && setup.hasHandler {
        out := out + [Callback(if linkDown then ClientEvent.LinkDown else LeaseLost)];
      }
    }

    // ---------------------------------------------------------------- discovery

    method StartDiscoveryOrRebooting(now: nat, x: uint32)
      requires setup.params.Valid()
      modifies this
      ensures Fields() == DhcpMachine.StartDiscoveryOrRebooting(setup, old(Fields()), now, x)
    {
      xid := x;
      requestCount := 1;
      if info.ipAddress == ZeroAddr {
        state := Selecting;
        SendDiscover();
      } else {
        state := Rebooting;
        requestSendTime := now;
        SendRequest();
      }
      ResetRtxTimeout();
      SetTimerForRtx(now);
    }

    method StartDiscovery(now: nat, x: uint32)
      requires setup.params.Valid()
      modifies this
      ensures Fields() == DhcpMachine.StartDiscovery(setup, old(Fields()), now, x)
    {
      info := info.(ipAddress := ZeroAddr);
      StartDiscoveryOrRebooting(now, x);
    }

    method HandleExpiredLease(hadLease: bool, now: nat, x: uint32)
      requires setup.params.Valid()
      modifies this
      ensures Fields() == DhcpMachine.HandleExpiredLease(setup, old(Fields()), hadLease, now, x)
    {
      StartDiscovery(now, x);
      if hadLease {
        HandleDhcpDown(true, false);
      }
    }

    method GoResetting(discoverImmediately: bool, now: nat, x: uint32)
      requires setup.params.Valid()
      modifies this
      ensures Fields() == DhcpMachine.GoResetting(setup, old(Fields()), discoverImmediately, now, x)
    {
      var hadLease := state == Bound || state == Renewing || state == Rebinding;
      if discoverImmediately {
        StartDiscovery(now, x);
      } else {
        state := Resetting;
        timerArmed := true;
        timerAt := now + SecToTicks(setup.params, setup.params.resetTimeoutSeconds);
      }
      if hadLease {
        HandleDhcpDown(true, false);
      }
    }

    method GoChecking(now: nat)
      requires setup.params.Valid()
      modifies this
      ensures Fields() == DhcpMachine.GoChecking(setup, old(Fields()), now)
    {
      state := Checking;
      requestCount := 1;
      arpObserving := true;
      timerArmed := true;
      timerAt := now + SecToTicks(setup.params, setup.params.arpResponseTimeoutSeconds);
      out := out + [ArpQuery(info.ipAddress)];
    }

    method GoBound(now: nat, x: uint32)
      requires setup.params.Valid() && requestSendTime <= now
      requires state == Checking || state == Renewing || state == Rebinding || state == Rebooting
      modifies this
      ensures Fields() == DhcpMachine.GoBound(setup, old(Fields()), now, x)
    {
      var hadLease := state == Bound || state == Renewing || state == Rebinding;
      var passed := TicksToSec(setup.params, now - requestSendTime);
      if passed >= info.leaseTimeS {
        leaseTimePassed := passed;
        HandleExpiredLease(hadLease, now, x);
      } else {
        ArmBoundTimer(passed);
        HandleDhcpUp(hadLease);
      }
    }

    /** Enters Bound with the timer set for T1, or as far towards it as the timer reaches. */
    method ArmBoundTimer(passed: uint32)
      requires setup.params.Valid()
      modifies this
      ensures Fields() == DhcpMachine.EnterBound(setup, old(Fields()), passed)
    {
      var timerRel: uint32;
      if passed <= info.renewalTimeS {
        timerRel := info.renewalTimeS - passed;
      } else {
        timerRel := 0;
      }
      timerRel := Min(timerRel, setup.params.MaxTimerSeconds());
      state := Bound;
      leaseTimePassed := passed + timerRel;
      timerArmed := true;
      timerAt := requestSendTime + SecToTicksNoAssert(setup.params, leaseTimePassed);
    }

    // ---------------------------------------------------------------- timer

    method HandleTimerSelecting(now: nat, x: uint32)
      requires setup.params.Valid() && state == Selecting
      modifies this
      ensures Fields() == DhcpMachine.HandleTimerSelecting(setup, old(Fields()), now, x)
    {
      if requestCount >= setup.params.xidReuseMax {
        requestCount := 1;
        xid := x;
      } else {
        requestCount := (requestCount + 1) % 256;
      }
      SendDiscover();
      DoubleRtxTimeout();
      SetTimerForRtx(now);
    }

    method HandleTimerRebootingRequesting(now: nat, x: uint32)
      requires setup.params.Valid() && (state == Rebooting || state == Requesting)
      modifies this
      ensures Fields() == DhcpMachine.HandleTimerRebootingRequesting(setup, old(Fields()), now, x)
    {
      var limit := if state == Rebooting then setup.params.maxRebootRequests
                   else setup.params.maxRequests;
      if requestCount >= limit {
        StartDiscovery(now, x);
        return;
      }
      requestCount := requestCount + 1;
      SendRequest();
      DoubleRtxTimeout();
      SetTimerForRtx(now);
    }

    method HandleTimerChecking(now: nat, x: uint32)
      requires setup.params.Valid() && state == Checking && requestSendTime <= now
      modifies this
      ensures Fields() == DhcpMachine.HandleTimerChecking(setup, old(Fields()), now, x)
    {
      if requestCount < setup.params.numArpQueries {
        requestCount := requestCount + 1;
        timerArmed := true;
        timerAt := now + SecToTicks(setup.params, setup.params.arpResponseTimeoutSeconds);
        out := out + [ArpQuery(info.ipAddress)];
      } else {
        arpObserving := false;
        GoBound(now, x);
      }
    }

    /** The seconds until the lease timer fires next: T1 when bound, else the next request or deadline. */
    method LeaseTimerSeconds() returns (timerRel: uint32)
      requires setup.params.Valid() && DhcpTypes.HasLease(state) && leaseTimePassed < info.leaseTimeS
      requires state == Bound ==> leaseTimePassed < info.renewalTimeS
      requires state == Renewing ==> leaseTimePassed < info.rebindingTimeS
      ensures timerRel == NextLeaseTimerSeconds(setup.params, Fields())
    {
      var p := setup.params;
      if state == Bound {
        timerRel := info.renewalTimeS - leaseTimePassed;
      } else {
        var nextState := if state == Renewing then info.rebindingTimeS else info.leaseTimeS;
        var nextStateRel: uint32 := nextState - leaseTimePassed;
        var rtxRel := Max(p.minRenewRtxTimeoutSeconds, nextStateRel / 2);
        timerRel := Min(nextStateRel, rtxRel);
      }
      timerRel := Min(timerRel, p.MaxTimerSeconds());
    }

    method HandleTimerBoundRenewingRebinding(now: nat, x: uint32)
      requires setup.params.Valid() && DhcpTypes.HasLease(state) && timerAt <= now
      requires leaseTimePassed <= info.leaseTimeS
      modifies this
      ensures Fields() == DhcpMachine.HandleTimerBoundRenewingRebinding(setup, old(Fields()), now, x)
    {
      var passed := TicksToSec(setup.params, now - timerAt);
      if passed >= info.leaseTimeS - leaseTimePassed {
        HandleExpiredLease(true, now, x);
      } else {
        ContinueLease(now, x);
      }
    }

    /** The lease timer short of expiry: accounts for the seconds passed and moves on at T1 and T2. */
    method ContinueLease(now: nat, x: uint32)
      requires setup.params.Valid() && DhcpTypes.HasLease(state) && timerAt <= now
      requires leaseTimePassed <= info.leaseTimeS
      requires TicksToSec(setup.params, now - timerAt) < info.leaseTimeS - leaseTimePassed
      modifies this
      ensures Fields() == DhcpMachine.HandleTimerBoundRenewingRebinding(setup, old(Fields()), now, x)
    {
      ghost var c := Fields();
      var passed := TicksToSec(setup.params, now - timerAt);
      var prevLeaseTimePassed := leaseTimePassed;
      AdvanceLeaseState(passed, x);
      RearmLeaseTimer(prevLeaseTimePassed, now);
      ContinueLeaseUnfolds(setup, c, now, x);
    }

    /** Accounts for `passed` more lease seconds and enters Renewing or Rebinding when due. */
    method AdvanceLeaseState(passed: uint32, x: uint32)
      requires DhcpTypes.HasLease(state) && passed < info.leaseTimeS - leaseTimePassed
      modifies this
      ensures Fields() == DhcpMachine.AdvanceLease(old(Fields()), passed, x)
    {
      leaseTimePassed := leaseTimePassed + passed;
      if state != Rebinding && leaseTimePassed >= info.rebindingTimeS {
        state := Rebinding;
        xid := x;
      } else if state == Bound && leaseTimePassed >= info.renewalTimeS {
        state := Renewing;
        xid := x;
      }
    }

    /** Sends a request unless bound and sets the lease timer for the next event. */
    method RearmLeaseTimer(prevPassed: uint32, now: nat)
      requires setup.params.Valid() && DhcpTypes.HasLease(state) && leaseTimePassed < info.leaseTimeS
      requires state == Bound ==> leaseTimePassed < info.renewalTimeS
      requires state == Renewing ==> leaseTimePassed < info.rebindingTimeS
      requires prevPassed <= leaseTimePassed
      modifies this
      ensures Fields() == DhcpMachine.RearmLeaseTimer(setup, old(Fields()), now, prevPassed)
    {
      ghost var c := Fields();
      var timerRel := LeaseTimerSeconds();
      RequestUnlessBound(now);
      ArmLeaseTimer(timerRel, prevPassed);
      assert Fields() == (if c.state == Bound then c
                          else DhcpMachine.SendRequest(setup, c).(requestSendTime := now, requestSendTimePassed := c.leaseTimePassed)).(
                            leaseTimePassed := c.leaseTimePassed + timerRel, timerArmed := true,
                            timerAt := c.timerAt + SecToTicksNoAssert(setup.params, c.leaseTimePassed + timerRel - prevPassed));
    }

    /** Renewing or rebinding, sends a request and remembers when. */
    method RequestUnlessBound(now: nat)
      requires DhcpTypes.HasLease(state)
      modifies this
      ensures Fields() == if old(state) == Bound then old(Fields())
                          else DhcpMachine.SendRequest(setup, old(Fields())).(
                                 requestSendTime := now, requestSendTimePassed := old(leaseTimePassed))
    {
      if state != Bound {
        SendRequest();
        requestSendTime := now;
        requestSendTimePassed := leaseTimePassed;
      }
    }

    /** Sets the lease timer timerRel seconds ahead, counted from when prevPassed lease seconds had passed. */
    method ArmLeaseTimer(timerRel: uint32, prevPassed: uint32)
      requires prevPassed <= leaseTimePassed && leaseTimePassed + timerRel <= UInt32Max
      modifies this
      ensures Fields() == old(Fields()).(leaseTimePassed := old(leaseTimePassed) + timerRel, timerArmed := true,
                                         timerAt := old(timerAt) + SecToTicksNoAssert(setup.params, old(leaseTimePassed) + timerRel - prevPassed))
    {
      var timerTime := timerAt + SecToTicksNoAssert(setup.params, leaseTimePassed + timerRel - prevPassed);
      leaseTimePassed := leaseTimePassed + timerRel;
      timerArmed := true;
      timerAt := timerTime;
    }

    /** The timer fired at time now (timerHandler). */
    method TimerHandler(now: nat, x: uint32)
      requires Valid() && timerArmed && timerAt <= now && requestSendTime <= now
      modifies this
      ensures Fields() == DhcpMachine.TimerHandler(setup, old(Fields()), now, x)
      ensures Valid()
    {
      TimerHandlerInv(setup, Fields(), now, x);
      DispatchTimer(now, x);
    }

    /** Disarms the timer and runs the handler of the current state. */
    method DispatchTimer(now: nat, x: uint32)
      requires setup.params.Valid() && timerAt <= now && requestSendTime <= now
      requires DhcpTypes.HasLease(state) ==> leaseTimePassed <= info.leaseTimeS
      requires state != DhcpState.LinkDown
      modifies this
      ensures Fields() == DhcpMachine.TimerHandler(setup, old(Fields()), now, x)
    {
      timerArmed := false;
      match state
      case Resetting => StartDiscovery(now, x);
      case Selecting => HandleTimerSelecting(now, x);
      case Rebooting => HandleTimerRebootingRequesting(now, x);
      case Requesting => HandleTimerRebootingRequesting(now, x);
      case Checking => HandleTimerChecking(now, x);
      case Bound => HandleTimerBoundRenewingRebinding(now, x);
      case Renewing => HandleTimerBoundRenewingRebinding(now, x);
      case Rebinding => HandleTimerBoundRenewingRebinding(now, x);
      case LinkDown => assert false;
    }

    // ---------------------------------------------------------------- received messages

    method HandleNak(opts: RecvOptions, now: nat, x: uint32)
      requires setup.params.Valid()
      modifies this
      ensures Fields() == DhcpMachine.HandleNak(setup, old(Fields()), opts, now, x)
    {
      if !SendsRequests(state) {
        return;
      }
      if state == Requesting && opts.dhcpServerIdentifier != info.dhcpServerIdentifier {
        return;
      }
      GoResetting(state != Requesting, now, x);
    }

    method HandleOffer(msg: InboundMessage, opts: RecvOptions, now: nat)
      requires setup.params.Valid() && msg.Datagram? && state == Selecting
      modifies this
      ensures Fields() == DhcpMachine.HandleOffer(setup, old(Fields()), msg, opts, now)
    {
      if !CheckOffer(msg.yiaddr) {
        return;
      }
      ghost var c := Fields();
      info := info.(ipAddress := msg.yiaddr, dhcpServerIdentifier := opts.dhcpServerIdentifier);
      state := Requesting;
      requestSendTime := now;
      ghost var c1 := Fields();
      assert c1 == c.(info := c.info.(ipAddress := msg.yiaddr, dhcpServerIdentifier := opts.dhcpServerIdentifier),
                      state := Requesting, requestSendTime := now);
      SendRequest();
      requestCount := 1;
      assert Fields() == DhcpMachine.SendRequest(setup, c1).(requestCount := 1);
      ResetRtxTimeout();
      SetTimerForRtx(now);
    }

    method HandleAck(msg: InboundMessage, opts: RecvOptions, now: nat, x: uint32)
      requires setup.params.Valid() && msg.Datagram? && SendsRequests(state) && requestSendTime <= now
      modifies this
      ensures Fields() == DhcpMachine.HandleAck(setup, old(Fields()), msg, opts, now, x)
    {
      ghost var c := Fields();
      var ok, fixed := CheckAndFixupAck(msg.yiaddr, opts);
      if !ok {
        return;
      }
      if state == Requesting {
        if msg.yiaddr != info.ipAddress || fixed.dhcpServerIdentifier != info.dhcpServerIdentifier {
          return;
        }
      } else if state != Rebooting {
        if leaseTimePassed - requestSendTimePassed > setup.params.MaxTimerSeconds() {
          return;
        }
      }
      info := info.(
        ipAddress := msg.yiaddr,
        dhcpServerIdentifier := fixed.dhcpServerIdentifier,
        dhcpServerAddr := msg.srcAddr,
        leaseTimeS := fixed.ipAddressLeaseTime,
        renewalTimeS := fixed.renewalTime,
        rebindingTimeS := fixed.rebindingTime,
        subnetMask := fixed.subnetMask,
        haveRouter := fixed.have.router,
        router := if fixed.have.router then fixed.router else ZeroAddr,
        domainNameServers := fixed.dnsServers,
        serverMac := msg.srcMac);
      assert Fields() == c.(info := AckedLeaseInfo(c.info, msg, fixed));
      AckUnfolds(setup, c, msg, opts, now, x);
      if state == Requesting {
        GoChecking(now);
      } else {
        GoBound(now, x);
      }
    }

    /** A datagram from the server port (processReceivedDhcpMessage). */
    method ProcessReceivedDhcpMessage(msg: InboundMessage, now: nat, x: uint32)
      requires Valid() && requestSendTime <= now
      modifies this
      ensures Fields() == DhcpMachine.ProcessReceivedDhcpMessage(setup, old(Fields()), msg, now, x)
      ensures Valid()
    {
      ProcessReceivedDhcpMessageInv(setup, Fields(), msg, now, x);
      if !AwaitsReply(state) || msg.ShortMessage? {
        return;
      }
      if !HeaderSane(msg, xid, setup.id.mac) || msg.magic != DhcpMagic || msg.options.None? {
        return;
      }
      var opts := msg.options.value;
      if !opts.have.dhcpMessageType || !IsReplyType(opts.dhcpMessageType) {
        return;
      }
      if !opts.have.dhcpServerIdentifier {
        return;
      }
      if opts.dhcpMessageType == DhcpNak {
        HandleNak(opts, now, x);
        return;
      }
      if opts.dhcpMessageType == DhcpOffer && state == Selecting {
        HandleOffer(msg, opts, now);
      } else if opts.dhcpMessageType == DhcpAck && SendsRequests(state) {
        HandleAck(msg, opts, now, x);
      }
    }

    // ---------------------------------------------------------------- link and ARP

    /** The link went up or down (ifaceStateChanged). */
    method IfaceStateChanged(linkUp: bool, now: nat, x: uint32)
      requires Valid()
      modifies this
      ensures Fields() == DhcpMachine.IfaceStateChanged(setup, old(Fields()), linkUp, now, x)
      ensures Valid()
    {
      IfaceStateChangedInv(setup, Fields(), linkUp, now, x);
      if state == DhcpState.LinkDown {
        if linkUp {
          StartDiscoveryOrRebooting(now, x);
        }
      } else if !linkUp {
        var hadLease := state == Bound || state == Renewing || state == Rebinding;
        if !(hadLease || state == Rebooting) {
          info := info.(ipAddress := ZeroAddr);
        }
        state := DhcpState.LinkDown;
        arpObserving := false;
        timerArmed := false;
        if hadLease {
          HandleDhcpDown(true, true);
        }
      }
    }

    /** An ARP reply seen while checking (arpInfoReceived). */
    method ArpInfoReceived(ipAddr: Ip4Addr, now: nat)
      requires Valid() && arpObserving
      modifies this
      ensures Fields() == DhcpMachine.ArpInfoReceived(setup, old(Fields()), ipAddr, now)
      ensures Valid()
    {
      ArpInfoReceivedInv(setup, Fields(), ipAddr, now);
      if ipAddr == info.ipAddress {
        SendDecline();
        arpObserving := false;
        GoResetting(false, now, xid);
      }
    }
  }
}
