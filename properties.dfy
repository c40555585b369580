/*
 * What the DHCP client promises, stated about the state machine on
 * values: retransmission and fallback rules, the filtering and handling
 * of received messages, the lease timer, link and ARP events, and the
 * agreement between the lease state and the interface configuration.
 */
module DhcpProperties {
  import opened DhcpTypes
  import opened DhcpRules
  import opened DhcpMessages
  import opened DhcpMachine
  import opened DhcpInvariant

  // ---------------------------------------------------------------- retransmission

  /** In Selecting the count runs 1..XidReuseMax; a new xid is taken exactly when it wraps. */
  lemma SelectingRetransmission(k: Setup, c: Client, now: nat, x: uint32)
    requires Inv(k, c) && c.state == Selecting && c.timerAt <= now && c.requestSendTime <= now
    ensures var r := TimerHandler(k, c, now, x);
      && r.state == Selecting
      && r.requestCount == (if c.requestCount == k.params.xidReuseMax then 1 else c.requestCount + 1)
      && r.xid == (if c.requestCount == k.params.xidReuseMax then x else c.xid)
      && r.rtxTimeout == Min(2 * c.rtxTimeout, k.params.maxRtxTimeoutSeconds)
      && r.out == c.out + [Send(DiscoverMessage(k.id, r.xid))]
      && r.timerArmed && r.timerAt == now + r.rtxTimeout * k.params.timeFreq
  {
  }

  /** Requests are retransmitted until MaxRequests (MaxRebootRequests when rebooting), then discovery restarts. */
  lemma RequestRetransmission(k: Setup, c: Client, now: nat, x: uint32)
    requires Inv(k, c) && (c.state == Requesting || c.state == Rebooting)
    requires c.timerAt <= now && c.requestSendTime <= now
    ensures var r := TimerHandler(k, c, now, x);
      var limit := if c.state == Rebooting then k.params.maxRebootRequests else k.params.maxRequests;
      && (c.requestCount == limit ==>
            r.state == Selecting && r.xid == x && r.requestCount == 1 && r.info.ipAddress == ZeroAddr
            && r.rtxTimeout == k.params.baseRtxTimeoutSeconds
            && r.out == c.out + [Send(DiscoverMessage(k.id, x))])
      && (c.requestCount < limit ==>
            r.state == c.state && r.xid == c.xid && r.requestCount == c.requestCount + 1
            && r.requestSendTime == c.requestSendTime
            && r.rtxTimeout == Min(2 * c.rtxTimeout, k.params.maxRtxTimeoutSeconds)
            && r.out == c.out + [Send(RequestMessage(k.id, c.state, c.info, c.xid))])
  {
  }

  /** While checking, the timer is the ARP check timer. */
  lemma TimerHandlerChecking(k: Setup, c: Client, now: nat, x: uint32)
    requires k.params.Valid() && c.state == Checking && c.timerAt <= now && c.requestSendTime <= now
    ensures TimerHandler(k, c, now, x) == HandleTimerChecking(k, c.(timerArmed := false), now, x)
  {
  }

  /** While checking, each timeout short of NumArpQueries sends another ARP query. */
  lemma CheckingProbes(k: Setup, c: Client, now: nat, x: uint32)
    requires Inv(k, c) && c.state == Checking && c.requestSendTime <= now
    requires c.requestCount < k.params.numArpQueries
    ensures var r := HandleTimerChecking(k, c.(timerArmed := false), now, x);
      && r.state == Checking && r.requestCount == c.requestCount + 1
      && r.out == c.out + [ArpQuery(c.info.ipAddress)]
      && r.timerArmed && r.timerAt == now + k.params.arpResponseTimeoutSeconds * k.params.timeFreq
  {
  }

  /** Once NumArpQueries went unanswered the address is taken: bound, or discovery if the lease ran out meanwhile. */
  lemma CheckingDone(k: Setup, c: Client, now: nat, x: uint32)
    requires Inv(k, c) && c.state == Checking && c.requestSendTime <= now
    requires c.requestCount == k.params.numArpQueries
    ensures var r := HandleTimerChecking(k, c.(timerArmed := false), now, x);
      && !r.arpObserving
      && (r.state == Bound <==> TicksToSec(k.params, now - c.requestSendTime) < c.info.leaseTimeS)
      && (r.state != Bound ==> r.state == Selecting && r.out == c.out + [Send(DiscoverMessage(k.id, x))])
  {
    var c1 := c.(timerArmed := false, arpObserving := false);
    assert HandleTimerChecking(k, c.(timerArmed := false), now, x) == GoBound(k, c1, now, x);
    GoBoundFacts(k, c1, now, x);
  }

  // ---------------------------------------------------------------- received messages

  /** Datagrams the client ignores change nothing at all. */
  lemma InboundFiltering(k: Setup, c: Client, msg: InboundMessage, now: nat, x: uint32)
    requires k.params.Valid() && c.requestSendTime <= now
    ensures var r := ProcessReceivedDhcpMessage(k, c, msg, now, x);
      && (c.state == DhcpState.LinkDown || c.state == Resetting || c.state == Checking || c.state == Bound ==> r == c)
      && (msg.ShortMessage? ==> r == c)
      && (msg.Datagram? &&
          (msg.op != BootReply || msg.htype != HwTypeEthernet || msg.hlen != MacAddrSize ||
           msg.xid != c.xid || msg.chaddr != k.id.mac)
          ==> r == c)
      && (msg.Datagram? && msg.magic != DhcpMagic ==> r == c)
      && (msg.Datagram? && msg.options.None? ==> r == c)
      && (msg.Datagram? && msg.options.Some? && !msg.options.value.have.dhcpMessageType ==> r == c)
      && (msg.Datagram? && msg.options.Some? &&
          !(msg.options.value.dhcpMessageType in {DhcpOffer, DhcpAck, DhcpNak})
          ==> r == c)
      && (msg.Datagram? && msg.options.Some? && !msg.options.value.have.dhcpServerIdentifier ==> r == c)
      && (msg.Datagram? && msg.options.Some? && msg.options.value.dhcpMessageType == DhcpOffer &&
          c.state != Selecting
          ==> r == c)
      && (msg.Datagram? && msg.options.Some? && msg.options.value.dhcpMessageType == DhcpAck &&
          !SendsRequests(c.state)
          ==> r == c)
  {
  }

  /** An offer is taken up in Selecting when its address passes the sanity check. */
  lemma OfferHandling(k: Setup, c: Client, msg: InboundMessage, now: nat, x: uint32)
    requires Inv(k, c) && c.requestSendTime <= now && c.state == Selecting
    requires Acceptable(msg, c.xid, k.id.mac) && msg.options.value.dhcpMessageType == DhcpOffer
    ensures var r := ProcessReceivedDhcpMessage(k, c, msg, now, x);
      && (!CheckOffer(msg.yiaddr) ==> r == c)
      && (CheckOffer(msg.yiaddr) ==>
            && r.state == Requesting && r.xid == c.xid && r.requestCount == 1
            && r.rtxTimeout == k.params.baseRtxTimeoutSeconds && r.requestSendTime == now
            && r.info.ipAddress == msg.yiaddr
            && r.info.dhcpServerIdentifier == msg.options.value.dhcpServerIdentifier
            && r.out == c.out + [Send(RequestMessage(k.id, Requesting, r.info, c.xid))])
  {
  }

  /**
   * A NAK is acted on only while requesting. In Requesting it must name the
   * server of the offer and leads to Resetting; otherwise discovery
   * restarts at once. The configuration is removed and LeaseLost reported
   * exactly when a lease was held.
   */
  lemma NakHandling(k: Setup, c: Client, msg: InboundMessage, now: nat, x: uint32)
    requires Inv(k, c) && c.requestSendTime <= now && AwaitsReply(c.state)
    requires Acceptable(msg, c.xid, k.id.mac) && msg.options.value.dhcpMessageType == DhcpNak
    ensures var r := ProcessReceivedDhcpMessage(k, c, msg, now, x);
      var sid := msg.options.value.dhcpServerIdentifier;
      && (c.state == Selecting ==> r == c)
      && (c.state == Requesting && sid != c.info.dhcpServerIdentifier ==> r == c)
      && (c.state == Requesting && sid == c.info.dhcpServerIdentifier ==>
            r.state == Resetting && r.xid == c.xid && r.out == c.out
            && r.timerArmed && r.timerAt == now + k.params.resetTimeoutSeconds * k.params.timeFreq)
      && (c.state == Rebooting ==>
            r.state == Selecting && r.xid == x && r.out == c.out + [Send(DiscoverMessage(k.id, x))])
      && (c.state == Renewing || c.state == Rebinding ==>
            r.state == Selecting && r.xid == x
            && r.out == c.out + [Send(DiscoverMessage(k.id, x))] + DownActions(k, true, false)
            && ConfigAfter(Unconfigured, r.out) == Unconfigured)
  {
    if c.state == Renewing || c.state == Rebinding {
      ProcessReceivedDhcpMessageInv(k, c, msg, now, x);
    }
  }

  /** The conditions under which an ack to a request is accepted. */
  ghost predicate AckAccepted(k: Setup, c: Client, msg: InboundMessage)
    requires k.params.Valid() && msg.Datagram? && msg.options.Some?
  {
    var fixed := FixedAck(msg.yiaddr, msg.options.value);
    && fixed.Some?
    && (c.state == Requesting ==>
          msg.yiaddr == c.info.ipAddress && fixed.value.dhcpServerIdentifier == c.info.dhcpServerIdentifier)
    && (c.state == Renewing || c.state == Rebinding ==>
          c.leaseTimePassed - c.requestSendTimePassed <= k.params.MaxTimerSeconds())
  }

  /**
   * Binding: Bound when the lease still runs, with the lease applied to the
   * interface and the timer set for T1, counted from the request, or as far
   * towards it as the timer reaches.
   */
  lemma GoBoundFacts(k: Setup, c: Client, now: nat, x: uint32)
    requires k.params.Valid() && c.requestSendTime <= now
    requires c.state == Checking || c.state == Renewing || c.state == Rebinding || c.state == Rebooting
    ensures var r := GoBound(k, c, now, x);
      && (r.state == Bound <==> TicksToSec(k.params, now - c.requestSendTime) < c.info.leaseTimeS)
      && (r.state == Bound ==>
            r.info == c.info && r.out == c.out + UpActions(k, c.info, HasLease(c.state))
            && ConfigAfter(Unconfigured, r.out) == LeaseConfig(c.info))
      && (r.state != Bound ==>
            r.state == Selecting && r.xid == x
            && r.out == c.out + [Send(DiscoverMessage(k.id, x))]
                              + (if HasLease(c.state) then DownActions(k, true, false) else []))
      && (!c.arpObserving ==> !r.arpObserving)
      && (r.state == Bound ==>
            var p := k.params;
            var passed := TicksToSec(p, now - c.requestSendTime);
            && r.timerArmed && r.timerAt <= now + p.MaxTimerSeconds() * p.timeFreq
            && (passed <= c.info.renewalTimeS && c.info.renewalTimeS - passed <= p.MaxTimerSeconds() ==>
                  r.timerAt == c.requestSendTime + c.info.renewalTimeS * p.timeFreq))
  {
    var r := GoBound(k, c, now, x);
    if r.state == Bound {
      ConfigAfterUp(k, Unconfigured, c.out, c.info, HasLease(c.state));
      GoBoundUnfolds(k, c, now, x);
      EnterBoundTimer(k, c, now);
    }
  }

  /** Entering Bound sets the timer at T1 past the request time, capped at the timer span from now. */
  lemma EnterBoundTimer(k: Setup, c: Client, now: nat)
    requires k.params.Valid() && c.requestSendTime <= now
    ensures var p := k.params;
      var passed := TicksToSec(p, now - c.requestSendTime);
      var b := EnterBound(k, c, passed);
      && b.timerArmed && b.timerAt <= now + p.MaxTimerSeconds() * p.timeFreq
      && (passed <= c.info.renewalTimeS && c.info.renewalTimeS - passed <= p.MaxTimerSeconds() ==>
            b.timerAt == c.requestSendTime + c.info.renewalTimeS * p.timeFreq)
  {
    var p := k.params;
    var passed := TicksToSec(p, now - c.requestSendTime);
    var rel := if passed <= c.info.renewalTimeS then c.info.renewalTimeS - passed else 0;
    var relClamped := Min(rel, p.MaxTimerSeconds());
    TicksToSecBounds(p, now - c.requestSendTime);
    MulAdd(passed, relClamped, p.timeFreq);
    MulMonotone(relClamped, p.MaxTimerSeconds(), p.timeFreq);
  }

  /** An acceptable DHCPACK while a request is outstanding goes to the ack handler. */
  lemma AckDispatch(k: Setup, c: Client, msg: InboundMessage, now: nat, x: uint32)
    requires k.params.Valid() && c.requestSendTime <= now && SendsRequests(c.state)
    requires Acceptable(msg, c.xid, k.id.mac) && msg.options.value.dhcpMessageType == DhcpAck
    ensures ProcessReceivedDhcpMessage(k, c, msg, now, x) == HandleAck(k, c, msg, msg.options.value, now, x)
  {
  }

  /**
   * An ack is accepted only when it passes checkAndFixupAck, matches the
   * offer in Requesting, and is recent enough when renewing or rebinding;
   * otherwise it changes nothing.
   */
  lemma AckRejected(k: Setup, c: Client, msg: InboundMessage, now: nat, x: uint32)
    requires k.params.Valid() && c.requestSendTime <= now && SendsRequests(c.state)
    requires msg.Datagram? && msg.options.Some? && !AckAccepted(k, c, msg)
    ensures HandleAck(k, c, msg, msg.options.value, now, x) == c
  {
  }

  /** An accepted ack in Requesting starts the ARP check of the acked address. */
  lemma AckStartsCheck(k: Setup, c: Client, msg: InboundMessage, now: nat, x: uint32)
    requires k.params.Valid() && c.requestSendTime <= now && c.state == Requesting
    requires msg.Datagram? && msg.options.Some? && AckAccepted(k, c, msg)
    ensures var r := HandleAck(k, c, msg, msg.options.value, now, x);
      var fixed := FixedAck(msg.yiaddr, msg.options.value);
      && r.state == Checking && r.requestCount == 1 && r.arpObserving
      && r.info == AckedLeaseInfo(c.info, msg, fixed.value)
      && r.out == c.out + [ArpQuery(msg.yiaddr)]
  {
    AckUnfolds(k, c, msg, msg.options.value, now, x);
  }

  /**
   * An accepted ack in Rebooting, Renewing or Rebinding binds the lease
   * (or restarts discovery when it has run out already), with
   * LeaseRenewed reported exactly when a lease was already held.
   */
  lemma AckBinds(k: Setup, c: Client, msg: InboundMessage, now: nat, x: uint32)
    requires k.params.Valid() && c.requestSendTime <= now && SendsRequests(c.state) && c.state != Requesting
    requires msg.Datagram? && msg.options.Some? && AckAccepted(k, c, msg)
    ensures var r := HandleAck(k, c, msg, msg.options.value, now, x);
      var fixed := FixedAck(msg.yiaddr, msg.options.value);
      && (r.state == Bound <==>
            TicksToSec(k.params, now - c.requestSendTime) < fixed.value.ipAddressLeaseTime)
      && (r.state == Bound ==>
            r.info == AckedLeaseInfo(c.info, msg, fixed.value)
            && r.out == c.out + UpActions(k, r.info, HasLease(c.state))
            && ConfigAfter(Unconfigured, r.out) == LeaseConfig(r.info))
      && (r.state != Bound ==> r.state == Selecting && r.xid == x)
  {
    var opts := msg.options.value;
    AckUnfolds(k, c, msg, opts, now, x);
    var c1 := c.(info := AckedLeaseInfo(c.info, msg, FixedAck(msg.yiaddr, opts).value));
    GoBoundFacts(k, c1, now, x);
  }

  /** The callback after binding says whether the lease was renewed or newly obtained. */
  lemma UpCallback(k: Setup, info: LeaseInfo, renewed: bool)
    ensures Callback(LeaseRenewed) in UpActions(k, info, renewed) <==> k.hasHandler && renewed
    ensures Callback(LeaseObtained) in UpActions(k, info, renewed) <==> k.hasHandler && !renewed
    ensures ConfigAfter(Unconfigured, UpActions(k, info, renewed)) == LeaseConfig(info)
  {
    ConfigAfterUp(k, Unconfigured, [], info, renewed);
    assert [] + UpActions(k, info, renewed) == UpActions(k, info, renewed);
  }

  /** Losing a lease removes the configuration and reports the cause when asked to. */
  lemma DownCallback(k: Setup, callCallback: bool, linkDown: bool)
    ensures Callback(ClientEvent.LinkDown) in DownActions(k, callCallback, linkDown) <==>
            k.hasHandler && callCallback && linkDown
    ensures Callback(LeaseLost) in DownActions(k, callCallback, linkDown) <==>
            k.hasHandler && callCallback && !linkDown
    ensures ConfigAfter(Unconfigured, DownActions(k, callCallback, linkDown)) == Unconfigured
  {
    ConfigAfterDown(k, Unconfigured, [], callCallback, linkDown);
    assert [] + DownActions(k, callCallback, linkDown) == DownActions(k, callCallback, linkDown);
  }

  // ---------------------------------------------------------------- the lease timer

  /**
   * A timer set at `start + (passed + rel) * f`, where `passed` whole
   * seconds of f ticks lie between start and now, fires after now and at
   * most maxRel seconds from now.
   */
  lemma TimerAfterNow(start: nat, now: nat, passed: nat, rel: nat, maxRel: nat, f: nat)
    requires start <= now && f >= 1
    requires passed * f <= now - start < (passed + 1) * f
    requires 1 <= rel <= maxRel
    ensures now < start + (passed + rel) * f <= now + maxRel * f
  {
    MulAdd(passed, rel, f);
    MulAdd(passed, 1, f);
    MulMonotone(1, rel, f);
    MulMonotone(rel, maxRel, f);
  }

  /** The lease timer short of expiry: the transitions at T1 and T2 and the requests sent. */
  lemma LeaseTimerTransitions(k: Setup, c: Client, now: nat, x: uint32)
    requires Inv(k, c) && HasLease(c.state) && c.timerAt <= now
    requires TicksToSec(k.params, now - c.timerAt) < c.info.leaseTimeS - c.leaseTimePassed
    ensures var r := HandleTimerBoundRenewingRebinding(k, c.(timerArmed := false), now, x);
      var ltp := c.leaseTimePassed + TicksToSec(k.params, now - c.timerAt);
      && HasLease(r.state) && r.info == c.info
      && (r.state == Rebinding <==> c.state == Rebinding || ltp >= c.info.rebindingTimeS)
      && (r.state == Renewing <==>
            c.state != Rebinding && ltp < c.info.rebindingTimeS &&
            (c.state == Renewing || ltp >= c.info.renewalTimeS))
      && r.xid == (if r.state == c.state then c.xid else x)
      && (r.state == Bound ==> r.out == c.out)
      && (r.state != Bound ==>
            r.out == c.out + [Send(RequestMessage(k.id, r.state, c.info, r.xid))]
            && r.requestSendTime == now && r.requestSendTimePassed == ltp)
  {
    LeaseTimerRunningStep(k, c.(timerArmed := false), now, x);
  }

  /** The lease timer short of expiry: the lease seconds accounted for. */
  lemma LeaseTimerAccounting(k: Setup, c: Client, now: nat, x: uint32)
    requires Inv(k, c) && HasLease(c.state) && c.timerAt <= now
    requires TicksToSec(k.params, now - c.timerAt) < c.info.leaseTimeS - c.leaseTimePassed
    ensures var r := HandleTimerBoundRenewingRebinding(k, c.(timerArmed := false), now, x);
      var ltp := c.leaseTimePassed + TicksToSec(k.params, now - c.timerAt);
      && c.leaseTimePassed <= ltp < r.leaseTimePassed <= c.info.leaseTimeS
      && (r.state == Bound ==> r.leaseTimePassed <= c.info.renewalTimeS)
  {
    LeaseTimerRunningStep(k, c.(timerArmed := false), now, x);
  }

  /** The lease timer short of expiry: the timer is set after now and within the timer span. */
  lemma LeaseTimerDeadline(k: Setup, c: Client, now: nat, x: uint32)
    requires k.params.Valid() && HasLease(c.state) && c.timerAt <= now
    requires c.leaseTimePassed <= c.info.leaseTimeS
    requires TicksToSec(k.params, now - c.timerAt) < c.info.leaseTimeS - c.leaseTimePassed
    ensures var r := HandleTimerBoundRenewingRebinding(k, c.(timerArmed := false), now, x);
      var p := k.params;
      r.timerArmed && now < r.timerAt <= now + p.MaxTimerSeconds() * p.timeFreq
  {
    var rel := LeaseTimerSetsTimer(k, c, now, x);
    RearmAfterNow(k.params, c.timerAt, now, rel);
  }

  /** The lease timer short of expiry sets the timer rel seconds past the whole seconds elapsed. */
  lemma LeaseTimerSetsTimer(k: Setup, c: Client, now: nat, x: uint32) returns (rel: uint32)
    requires k.params.Valid() && HasLease(c.state) && c.timerAt <= now
    requires c.leaseTimePassed <= c.info.leaseTimeS
    requires TicksToSec(k.params, now - c.timerAt) < c.info.leaseTimeS - c.leaseTimePassed
    ensures var r := HandleTimerBoundRenewingRebinding(k, c.(timerArmed := false), now, x);
      var passed := TicksToSec(k.params, now - c.timerAt);
      && 1 <= rel <= k.params.MaxTimerSeconds() && passed + rel <= UInt32Max
      && r.timerArmed && r.timerAt == c.timerAt + SecToTicksNoAssert(k.params, passed + rel)
  {
    var p := k.params;
    var c0 := c.(timerArmed := false);
    var passed := TicksToSec(p, now - c.timerAt);
    var ltp: uint32 := c.leaseTimePassed + passed;
    var c1 := AdvanceLease(c0, passed, x);
    rel := NextLeaseTimerSeconds(p, c1);
    assert c1.leaseTimePassed == ltp && passed + rel <= ltp + rel <= UInt32Max;
    ContinueLeaseUnfolds(k, c0, now, x);
    RearmLeaseTimerTime(k, c1, now, c.leaseTimePassed);
    assert ltp + rel - c.leaseTimePassed == passed + rel;
  }

  /** Where RearmLeaseTimer sets the timer. */
  lemma RearmLeaseTimerTime(k: Setup, c: Client, now: nat, prevPassed: uint32)
    requires k.params.Valid() && HasLease(c.state) && c.leaseTimePassed < c.info.leaseTimeS
    requires c.state == Bound ==> c.leaseTimePassed < c.info.renewalTimeS
    requires c.state == Renewing ==> c.leaseTimePassed < c.info.rebindingTimeS
    requires prevPassed <= c.leaseTimePassed
    ensures var r := RearmLeaseTimer(k, c, now, prevPassed);
      r.timerArmed && r.timerAt ==
        c.timerAt + SecToTicksNoAssert(k.params, c.leaseTimePassed + NextLeaseTimerSeconds(k.params, c) - prevPassed)
  {
  }

  /** Re-arming the timer rel seconds past the whole seconds elapsed since start. */
  lemma RearmAfterNow(p: Params, start: nat, now: nat, rel: uint32)
    requires p.Valid() && start <= now
    requires TicksToSec(p, now - start) < UInt32Max
    requires 1 <= rel <= p.MaxTimerSeconds()
    requires TicksToSec(p, now - start) + rel <= UInt32Max
    ensures var t := start + SecToTicksNoAssert(p, TicksToSec(p, now - start) + rel);
      now < t <= now + p.MaxTimerSeconds() * p.timeFreq
  {
    TicksToSecBounds(p, now - start);
    TimerAfterNow(start, now, TicksToSec(p, now - start), rel, p.MaxTimerSeconds(), p.timeFreq);
  }

  /** In Bound, Renewing and Rebinding the timer is the lease timer. */
  lemma TimerHandlerLease(k: Setup, c: Client, now: nat, x: uint32)
    requires k.params.Valid() && HasLease(c.state) && c.timerAt <= now && c.requestSendTime <= now
    requires c.leaseTimePassed <= c.info.leaseTimeS
    ensures TimerHandler(k, c, now, x) == HandleTimerBoundRenewingRebinding(k, c.(timerArmed := false), now, x)
  {
  }

  /**
   * The lease timer once the elapsed time reaches the rest of the lease:
   * discovery restarts with the fresh xid and the address is removed.
   */
  lemma LeaseTimerExpires(k: Setup, c: Client, now: nat, x: uint32)
    requires Inv(k, c) && HasLease(c.state) && c.timerAt <= now
    requires TicksToSec(k.params, now - c.timerAt) >= c.info.leaseTimeS - c.leaseTimePassed
    ensures var r := HandleTimerBoundRenewingRebinding(k, c.(timerArmed := false), now, x);
      && r.state == Selecting && r.xid == x
      && r.out == c.out + [Send(DiscoverMessage(k.id, x))] + DownActions(k, true, false)
      && ConfigAfter(Unconfigured, r.out) == Unconfigured
  {
    LeaseExpiryUnfolds(k, c.(timerArmed := false), now, x);
    HandleExpiredLeaseConfig(k, c.(timerArmed := false), true, now, x);
  }

  // ---------------------------------------------------------------- link, ARP, retry, teardown

  /** Link up in LinkDown starts a transaction; link down elsewhere stops everything. */
  lemma LinkChanges(k: Setup, c: Client, linkUp: bool, now: nat, x: uint32)
    requires Inv(k, c)
    ensures var r := IfaceStateChanged(k, c, linkUp, now, x);
      && (c.state == DhcpState.LinkDown && linkUp ==>
            r.state == (if c.info.ipAddress == ZeroAddr then Selecting else Rebooting)
            && r.xid == x && r.requestCount == 1 && r.timerArmed)
      && (c.state != DhcpState.LinkDown && !linkUp ==>
            r.state == DhcpState.LinkDown && !r.timerArmed && !r.arpObserving
            && r.info.ipAddress == (if HasLease(c.state) || c.state == Rebooting then c.info.ipAddress
                                    else ZeroAddr)
            && r.out == c.out + (if HasLease(c.state) then DownActions(k, true, true) else [])
            && ConfigAfter(Unconfigured, r.out) == Unconfigured)
      && (c.state != DhcpState.LinkDown && linkUp ==> r == c)
      && (c.state == DhcpState.LinkDown && !linkUp ==> r == c)
  {
    IfaceStateChangedInv(k, c, linkUp, now, x);
  }

  /** An ARP reply for the address being checked declines it and resets; other replies are ignored. */
  lemma ArpConflict(k: Setup, c: Client, ipAddr: Ip4Addr, now: nat)
    requires Inv(k, c) && c.state == Checking
    ensures var r := ArpInfoReceived(k, c, ipAddr, now);
      && (ipAddr != c.info.ipAddress ==> r == c)
      && (ipAddr == c.info.ipAddress ==>
            r.state == Resetting && !r.arpObserving && r.xid == c.xid
            && r.out == c.out + [Send(DeclineMessage(k.id, c.info, c.xid))]
            && r.timerArmed && r.timerAt == now + k.params.resetTimeoutSeconds * k.params.timeFreq)
  {
  }

  /** A retry resends exactly the message of the current state and changes nothing else. */
  lemma RetryResends(k: Setup, c: Client)
    ensures var r := RetrySending(k, c);
      && r.(out := c.out) == c
      && (c.state == Selecting ==> r.out == c.out + [Send(DiscoverMessage(k.id, c.xid))])
      && (SendsRequests(c.state) ==> r.out == c.out + [Send(RequestMessage(k.id, c.state, c.info, c.xid))])
      && (c.state != Selecting && !SendsRequests(c.state) ==> r == c)
  {
  }

  /** Destroying the client removes any configuration without a callback. */
  lemma DestroyUnconfigures(k: Setup, c: Client)
    ensures Destroyed(k, c).out == c.out + [SetIp4Gateway(None), SetIp4Addr(None)]
    ensures ConfigAfter(Unconfigured, Destroyed(k, c).out) == Unconfigured
  {
    ConfigAfterDown(k, Unconfigured, c.out, false, false);
  }

  // ---------------------------------------------------------------- lease and configuration

  /**
   * A lease is held exactly when the interface has an address; the address
   * assigned is the leased one, with a prefix length that reproduces the
   * leased subnet mask, and the gateway is the router when there is one.
   */
  lemma LeaseMatchesConfig(k: Setup, c: Client)
    requires Inv(k, c)
    ensures var cfg := ConfigAfter(Unconfigured, c.out);
      && (HasLease(c.state) <==> cfg.address.Some?)
      && (HasLease(c.state) ==>
            cfg.address.value.addr == c.info.ipAddress
            && cfg.address.value.prefix <= 32
            && PrefixMask(cfg.address.value.prefix) == c.info.subnetMask
            && cfg.gateway == (if c.info.haveRouter then Some(c.info.router) else None))
      && (!HasLease(c.state) ==> cfg.gateway.None?)
  {
    if HasLease(c.state) {
      PrefixMaskTest(c.info.subnetMask);
    }
  }
}
