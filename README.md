# DHCP client state machine (aipstack `IpDhcpClient`)

This project models the client side of DHCP as the aipstack class
`IpDhcpClient` implements it: the nine client states of RFC 2131
(section 4.4 and its Figure 5), the ARP check of an acked address
(section 4.4.1 of RFC 2131), the retransmission and backoff rules, the
lease timer with its renewal (T1) and rebinding (T2) times, and the pure
rules that check offers and validate and fix up acks.

The project is arranged in these modules:

- `DhcpTypes` (`types.dfy`) holds the data model:
  - fixed-width integers, where `uint8` and `uint32` are subset types;
  - IPv4 and MAC addresses as bit-vectors;
  - the states and the handler events;
  - the compile-time parameters, with the source's static asserts as `Params.Valid`;
  - the lease record `LeaseInfo`;
  - the parsed-options records exchanged with the option codec;
  - the abstract inbound datagram;
  - the composed outgoing message;
  - the log of external effects (`Action`).
- `DhcpRules` (`rules.dfy`) holds the pure rules:
  - `checkOffer`;
  - prefix masks and `countLeadingOnes`;
  - the default T1/T2 times;
  - second/tick conversion with saturation;
  - exponential backoff;
  - `checkAndFixupAck`. It is specified by the function `FixedAck` and implemented as a method that fixes the record up step by step, as the source does.
- `DhcpMessages` (`messages.dfy`) covers `send_dhcp_message` and the three messages built on it:
  - the header fields;
  - the options;
  - the send flags the client chooses;
  - the header checks applied to received datagrams.
- `DhcpMachine` (`machine.dfy`) treats the client's fields as a record `Client`. Every member function of the class is a function on that record.
  - External effects are appended to the log `out`: messages sent, ARP queries, address and gateway settings, and callbacks.
  - The interface configuration is recovered by replaying the log (`ConfigAfter`).
  - The platform timer is the pair `timerArmed`/`timerAt`.
- `DhcpInvariant` (`invariant.dfy`) defines the invariant `Inv` and proves that every entry point preserves it.
  - It states the ranges of the counters and of the retransmission timeout.
  - It states that the timer is armed in every state except LinkDown, and that the ARP observer is active exactly while checking.
  - It requires that a checked or held lease passed the ack checks, and that the lease seconds stay within the lease.
  - It requires that the interface carries the lease's configuration exactly while a lease is held.
- `DhcpProperties` (`properties.dfy`) proves, about the machine, the behaviour the source promises for each event.
- `DhcpClient` (`client.dfy`) is the class `IpDhcpClient`. Its fields are updated in place, with one method per member function of the source.
  - Each method is proved to leave `Fields()` equal to the matching `DhcpMachine` function of the old fields.
  - The five entry points (timer, received datagram, link change, ARP reply, send retry) and the constructor also keep `Valid()`.

The current time `now` and the fresh transaction id `x` are parameters of
the events that may use them. A send, ARP query, address or gateway
change or callback is an `Action` appended to the log.

## Model

| member | source | states |
|---|---|---|
| DhcpTypes.Params.MaxTimerSeconds | src/aipstack/ip/IpDhcpClient.h:270-274 | The furthest the timer may be set ahead, in seconds, is at most the platform's working time span divided by its tick rate. |
| DhcpTypes.DefaultParams | src/aipstack/ip/IpDhcpClient.h:1372-1446 | The default option values satisfy every static assert on the parameters (lines 216-230), on any platform whose timer spans at least 255 seconds. |
| DhcpRules.CheckOffer | src/aipstack/ip/IpDhcpClient.h:1020-1038 | An offered address is rejected exactly when it is 0.0.0.0, 255.255.255.255, in 127.0.0.0/8 or in 224.0.0.0/4. |
| DhcpRules.CountLeadingOnes | src/aipstack/ip/IpDhcpClient.h:1075-1078 | Counting the leading ones of an address gives a prefix length of at most 32. |
| DhcpRules.LeadingOnesOfPrefixMask | src/aipstack/ip/IpDhcpClient.h:1075-1078 | Counting the leading ones of the n-bit prefix mask gives back n. |
| DhcpRules.PrefixMaskTest | src/aipstack/ip/IpDhcpClient.h:1075-1078 | The mask test of checkAndFixupAck accepts exactly the contiguous prefix masks. The prefix length it computes is the mask's length. |
| DhcpRules.DefaultRenewTimeForLeaseTime | src/aipstack/ip/IpDhcpClient.h:276-280 | The default T1 is half the lease time, rounded down. |
| DhcpRules.DefaultRebindingTimeForLeaseTime | src/aipstack/ip/IpDhcpClient.h:282-287 | The default T2 is 7/8 of the lease time, rounded down, with no overflow. |
| DhcpRules.DefaultTimesOrdered | src/aipstack/ip/IpDhcpClient.h:276-287 | The default T1 is at most the default T2, which is at most the lease time. |
| DhcpRules.SecToTicks | src/aipstack/ip/IpDhcpClient.h:459-470 | A delay the timer can represent converts to ticks within the working span, and back to the same seconds. |
| DhcpRules.TicksToSecBounds | src/aipstack/ip/IpDhcpClient.h:472-477 | The seconds are the whole seconds in the ticks, rounded down, unless the count saturates at the uint32 maximum. |
| DhcpRules.TicksToSecOfSecToTicks | src/aipstack/ip/IpDhcpClient.h:459-477 | Converting representable seconds to ticks stays within the span and converts back to the same seconds. |
| DhcpRules.DoubledRtxTimeout | src/aipstack/ip/IpDhcpClient.h:491-496 | One backoff step doubles the timeout, capped at MaxRtxTimeoutSeconds. |
| DhcpRules.RtxTimeoutSchedule | src/aipstack/ip/IpDhcpClient.h:485-502 | After k retransmissions since the reset, the timeout is the base times 2^k, capped at the maximum. It always lies between the base and the maximum. |
| DhcpRules.FixedAckAcceptance | src/aipstack/ip/IpDhcpClient.h:1043-1084 | An ack is dropped without a sane address or a lease time, without a mask for a class D/E address, or with a non-contiguous mask. Otherwise it is accepted unless its address is the local broadcast. |
| DhcpRules.ClassfulMaskIsPrefixMask | src/aipstack/ip/IpDhcpClient.h:1055-1073 | The classful default mask of a class A, B or C address is a prefix mask. |
| DhcpRules.FixedAckAddressing | src/aipstack/ip/IpDhcpClient.h:1055-1092 | After fixup the mask is contiguous and is the server's mask, or else /8, /16 or /24 by address class. The address is not the subnet broadcast, and the router is kept exactly when it lies in the subnet. |
| DhcpRules.FixedAckTimes | src/aipstack/ip/IpDhcpClient.h:1094-1112 | After fixup, T1 ≤ T2 ≤ lease. A missing T1 becomes lease/2. A missing T2 becomes lease*7/8, raised to T1 if T1 is larger; with both missing it is lease*7/8. Consistent server times are kept. |
| DhcpRules.CheckAndFixupAck | src/aipstack/ip/IpDhcpClient.h:1043-1113 | The in-place fixup succeeds exactly when FixedAck accepts the ack, and then produces FixedAck's record. |
| DhcpRules.FixupLeaseTimes | src/aipstack/ip/IpDhcpClient.h:1094-1112 | The defaulting and clamping of T1 and T2 gives the fixed lease times. |
| DhcpMessages.DhcpMessage | src/aipstack/ip/IpDhcpClient.h:1295-1361 | Every message has a BOOTREQUEST Ethernet header with our xid, MAC and magic cookie. Client id and vendor class are added when configured, but vendor class never in a decline. A decline has no max-size or parameter list. AllowNonLocalSrc is set exactly when ciaddr is zero. |
| DhcpMessages.DiscoverMessage | src/aipstack/ip/IpDhcpClient.h:1237-1244 | A discover is broadcast from 0.0.0.0 and carries no server id and no requested address. |
| DhcpMessages.RequestMessage | src/aipstack/ip/IpDhcpClient.h:1247-1273 | Only Requesting names the server. Requesting and Rebooting ask for the address with ciaddr 0, while Renewing and Rebinding put it in ciaddr. Only Renewing unicasts, to the server address. |
| DhcpMessages.DeclineMessage | src/aipstack/ip/IpDhcpClient.h:1275-1292 | A decline names the server and the address and carries the "ArpResponse" message. It has no vendor class, no max-size and no parameter list, and it is broadcast. |
| DhcpMachine.ConfigAfterConcat | src/aipstack/ip/IpDhcpClient.h:1201-1234 | Replaying a log in two parts gives the same interface configuration as replaying it at once. |
| DhcpMachine.ConfigAfterSnoc | src/aipstack/ip/IpDhcpClient.h:1201-1234 | Appending one effect applies it to the configuration reached so far. |
| DhcpMachine.LeaseStateAt | src/aipstack/ip/IpDhcpClient.h:684-698 | Short of expiry, the lease state is Rebinding from T2 on and Renewing from T1 on, both exactly; it stays Bound only before T1. |
| DhcpMachine.RenewRequestDelay | src/aipstack/ip/IpDhcpClient.h:709-721 | While renewing or rebinding, the next request comes at least a second ahead and no later than the next state change. It comes at least MinRenewRtxTimeoutSeconds ahead unless the state change is sooner. |
| DhcpMachine.NextLeaseTimerSeconds | src/aipstack/ip/IpDhcpClient.h:702-733 | The lease timer is set between 1 and MaxTimerSeconds ahead and never past T1 when bound, T2 when renewing, or the lease end when rebinding. |
| DhcpInvariant.ConfigAfterNeutral | src/aipstack/ip/IpDhcpClient.h:1237-1292 | Sending a message or an ARP query leaves the interface configuration alone. |
| DhcpInvariant.ConfigAfterUp | src/aipstack/ip/IpDhcpClient.h:1201-1218 | After handle_dhcp_up the interface carries the lease's address, prefix and gateway. |
| DhcpInvariant.ConfigAfterDown | src/aipstack/ip/IpDhcpClient.h:1220-1234 | After handle_dhcp_down the interface has no address and no gateway. |
| DhcpInvariant.StartDiscoveryOrRebootingConfig | src/aipstack/ip/IpDhcpClient.h:505-543 | Starting a transaction does not change the interface configuration. |
| DhcpInvariant.HandleExpiredLeaseConfig | src/aipstack/ip/IpDhcpClient.h:545-554 | An expired lease leaves the interface unconfigured; without a lease the configuration is untouched. |
| DhcpInvariant.GoResettingConfig | src/aipstack/ip/IpDhcpClient.h:1115-1134 | go_resetting removes the configuration exactly when a lease was held. |
| DhcpInvariant.StartDiscoveryOrRebootingInv | src/aipstack/ip/IpDhcpClient.h:505-543 | Starting discovery or rebooting from an unconfigured interface establishes the invariant. |
| DhcpInvariant.HandleExpiredLeaseInv | src/aipstack/ip/IpDhcpClient.h:545-554 | Restarting discovery after an expired lease establishes the invariant. |
| DhcpInvariant.GoBoundInv | src/aipstack/ip/IpDhcpClient.h:1156-1199 | Binding from Checking, Rebooting, Renewing or Rebinding with a checked lease establishes the invariant. |
| DhcpInvariant.EnterBoundInv | src/aipstack/ip/IpDhcpClient.h:1175-1198 | Entering Bound with a checked, unexpired lease and applying it establishes the invariant. |
| DhcpInvariant.InitialInv | src/aipstack/ip/IpDhcpClient.h:358-396 | The constructed client satisfies the invariant. |
| DhcpInvariant.ResettingTimerInv | src/aipstack/ip/IpDhcpClient.h:577-582 | The Resetting timeout keeps the invariant. |
| DhcpInvariant.SelectingTimerInv | src/aipstack/ip/IpDhcpClient.h:584-602 | The Selecting retransmission keeps the invariant, including the count within 1..XidReuseMax. |
| DhcpInvariant.RebootingRequestingTimerInv | src/aipstack/ip/IpDhcpClient.h:604-630 | The request retransmission or fallback keeps the invariant, including the count within its limit. |
| DhcpInvariant.CheckingTimerInv | src/aipstack/ip/IpDhcpClient.h:632-652 | The ARP check timeout keeps the invariant. |
| DhcpInvariant.LeaseTimerRunningInv | src/aipstack/ip/IpDhcpClient.h:678-741 | The lease timer short of expiry keeps the invariant. |
| DhcpInvariant.RearmLeaseTimerInv | src/aipstack/ip/IpDhcpClient.h:702-741 | Re-arming the lease timer, with the request sent while renewing or rebinding, keeps the invariant. |
| DhcpInvariant.RearmLeaseTimerFields | src/aipstack/ip/IpDhcpClient.h:702-741 | Re-arming keeps the lease seconds within the lease and the send-time seconds behind them. |
| DhcpInvariant.LeaseTimerInv | src/aipstack/ip/IpDhcpClient.h:654-742 | The lease timer keeps the invariant. |
| DhcpInvariant.LeaseTimerExpiredInv | src/aipstack/ip/IpDhcpClient.h:673-675 | The lease timer at expiry keeps the invariant. |
| DhcpInvariant.TimerHandlerInv | src/aipstack/ip/IpDhcpClient.h:556-575 | Every timer expiry keeps the invariant. |
| DhcpInvariant.RetrySendingInv | src/aipstack/ip/IpDhcpClient.h:744-761 | The send retry keeps the invariant. |
| DhcpInvariant.SendKeepsInv | src/aipstack/ip/IpDhcpClient.h:1237-1292 | Logging a send or ARP query keeps the invariant. |
| DhcpInvariant.IfaceStateChangedInv | src/aipstack/ip/IpDhcpClient.h:965-1000 | Link changes keep the invariant. |
| DhcpInvariant.ArpInfoReceivedInv | src/aipstack/ip/IpDhcpClient.h:1002-1017 | An ARP reply while checking keeps the invariant. |
| DhcpInvariant.NakInv | src/aipstack/ip/IpDhcpClient.h:850-870 | Handling a NAK keeps the invariant. |
| DhcpInvariant.GoResettingInv | src/aipstack/ip/IpDhcpClient.h:1115-1134 | go_resetting from any state except Checking keeps the invariant. |
| DhcpInvariant.OfferInv | src/aipstack/ip/IpDhcpClient.h:876-906 | Handling an offer keeps the invariant. |
| DhcpInvariant.AckedLeaseInfoValid | src/aipstack/ip/IpDhcpClient.h:940-953 | The lease record taken from an accepted ack passes the ack checks, with T1 ≤ T2 ≤ lease. |
| DhcpInvariant.AckInv | src/aipstack/ip/IpDhcpClient.h:908-962 | Handling an ack keeps the invariant. |
| DhcpInvariant.GoCheckingInv | src/aipstack/ip/IpDhcpClient.h:1136-1154 | Starting the ARP check of an acked lease keeps the invariant. |
| DhcpInvariant.ProcessReceivedDhcpMessageInv | src/aipstack/ip/IpDhcpClient.h:785-963 | Every received datagram keeps the invariant. |
| DhcpProperties.SelectingRetransmission | src/aipstack/ip/IpDhcpClient.h:584-602 | In Selecting each timeout resends the discover and cycles the count through 1..XidReuseMax. A new xid is taken exactly when the count wraps. The timeout doubles, capped, and the timer is set that far ahead. |
| DhcpProperties.RequestRetransmission | src/aipstack/ip/IpDhcpClient.h:604-630 | The request is resent with the same xid until MaxRequests sends (MaxRebootRequests when rebooting). Then discovery restarts with a fresh xid, no address and the base timeout. |
| DhcpProperties.CheckingProbes | src/aipstack/ip/IpDhcpClient.h:636-644 | Short of NumArpQueries, each ARP timeout sends another query and re-arms the timer. |
| DhcpProperties.CheckingDone | src/aipstack/ip/IpDhcpClient.h:645-651 | After NumArpQueries unanswered queries the ARP observer stops. The client binds exactly when the lease has not run out since the request; otherwise it rediscovers. |
| DhcpProperties.InboundFiltering | src/aipstack/ip/IpDhcpClient.h:788-847 | A datagram changes nothing at all in LinkDown, Resetting, Checking or Bound. The same holds if it is short, has a wrong header, xid, MAC or magic cookie, has unparseable options, a missing or unknown message type, or no server id, or is an offer or ack in a state that ignores them. |
| DhcpProperties.OfferHandling | src/aipstack/ip/IpDhcpClient.h:876-906 | In Selecting an offer of an insane address is ignored. Otherwise the client requests the offered address from that server with count 1 and the base timeout. |
| DhcpProperties.NakHandling | src/aipstack/ip/IpDhcpClient.h:850-870 | A NAK is ignored in Selecting, and in Requesting unless it names the offering server; that case leads to Resetting with the reset timer. In Rebooting, Renewing and Rebinding it restarts discovery with a fresh xid. The configuration is removed exactly when a lease was held. |
| DhcpProperties.GoBoundFacts | src/aipstack/ip/IpDhcpClient.h:1156-1199 | go_bound ends in Bound exactly when the lease has not run out since the request. Then the lease is applied, with LeaseRenewed iff a lease was held, and the timer is armed at most MaxTimerSeconds ahead, at T1 counted from the request time when that is within reach. Otherwise discovery restarts and a held lease is lost. |
| DhcpProperties.EnterBoundTimer | src/aipstack/ip/IpDhcpClient.h:1179-1194 | Entering Bound arms the timer no more than MaxTimerSeconds from now, and exactly T1 seconds after the request was sent when T1 is not past and within the timer span. |
| DhcpProperties.AckRejected | src/aipstack/ip/IpDhcpClient.h:914-938 | An ack that fails the fixup, does not match the offer in Requesting, or is older than MaxTimerSeconds when renewing changes nothing. |
| DhcpProperties.AckStartsCheck | src/aipstack/ip/IpDhcpClient.h:940-958 | An accepted ack in Requesting takes the lease and starts the ARP check of the acked address. |
| DhcpProperties.AckBinds | src/aipstack/ip/IpDhcpClient.h:940-961 | An accepted ack in Rebooting, Renewing or Rebinding binds exactly when the acked lease has not run out, applying it with LeaseRenewed iff a lease was held. Otherwise discovery restarts. |
| DhcpProperties.UpCallback | src/aipstack/ip/IpDhcpClient.h:1201-1218 | handle_dhcp_up reports LeaseRenewed iff renewed and LeaseObtained otherwise, when a handler is set, and configures the lease. |
| DhcpProperties.DownCallback | src/aipstack/ip/IpDhcpClient.h:1220-1234 | handle_dhcp_down reports LinkDown or LeaseLost only when asked to and a handler is set, and it unconfigures the interface. |
| DhcpProperties.TimerAfterNow | src/aipstack/ip/IpDhcpClient.h:738-741 | A timer set rel whole seconds past the seconds elapsed fires after now and at most maxRel seconds from now. |
| DhcpProperties.LeaseTimerTransitions | src/aipstack/ip/IpDhcpClient.h:681-729 | Short of expiry, the lease timer moves to Rebinding from T2 and to Renewing from T1, each exactly, and takes a fresh xid on every change. It sends a request, and records when, on every firing not in Bound. |
| DhcpProperties.LeaseTimerAccounting | src/aipstack/ip/IpDhcpClient.h:678-738 | The lease seconds passed never decrease, grow strictly on every firing and stay within the lease time. In Bound they stay within T1. |
| DhcpProperties.LeaseTimerDeadline | src/aipstack/ip/IpDhcpClient.h:733-741 | The lease timer is set after now and at most MaxTimerSeconds ahead. |
| DhcpProperties.LeaseTimerSetsTimer | src/aipstack/ip/IpDhcpClient.h:733-741 | The timer is set 1..MaxTimerSeconds seconds past the whole seconds elapsed since the time it was set to. |
| DhcpProperties.RearmAfterNow | src/aipstack/ip/IpDhcpClient.h:733-741 | Counting from the last set time makes the new timer fire after now and within the timer span. |
| DhcpProperties.LeaseTimerExpires | src/aipstack/ip/IpDhcpClient.h:673-675 | Once the elapsed time reaches the rest of the lease, discovery restarts with a fresh xid and the address is removed. |
| DhcpProperties.LinkChanges | src/aipstack/ip/IpDhcpClient.h:965-1000 | Link up in LinkDown starts discovery or rebooting. Link down elsewhere stops the timer and the ARP observer and keeps the address only for rebooting. A held lease is removed with a LinkDown callback; other changes do nothing. |
| DhcpProperties.ArpConflict | src/aipstack/ip/IpDhcpClient.h:1002-1017 | An ARP reply for the address being checked sends a decline and goes to Resetting; other replies are ignored. |
| DhcpProperties.RetryResends | src/aipstack/ip/IpDhcpClient.h:744-761 | A retry resends exactly the current state's message and changes nothing else. |
| DhcpProperties.DestroyUnconfigures | src/aipstack/ip/IpDhcpClient.h:404-408 | Destruction removes gateway and address, with no callback. |
| DhcpProperties.LeaseMatchesConfig | src/aipstack/ip/IpDhcpClient.h:415-434 | In every reachable state a lease is held exactly when the interface has an address. That address is the leased one, with a prefix reproducing the mask and the router as gateway. |
| DhcpClient.IpDhcpClient.constructor | src/aipstack/ip/IpDhcpClient.h:358-396 | The client remembers the requested address and starts at once when the link is up. The invariant holds. |
| DhcpClient.IpDhcpClient.Destroy | src/aipstack/ip/IpDhcpClient.h:404-408 | The destructor leaves the interface unconfigured. |
| DhcpClient.IpDhcpClient.HasLease | src/aipstack/ip/IpDhcpClient.h:415-419 | hasLease is true exactly in Bound, Renewing and Rebinding, that is, exactly when the interface has an address. |
| DhcpClient.IpDhcpClient.LeaseInfoMustHaveLease | src/aipstack/ip/IpDhcpClient.h:429-434 | The lease record returned passed the ack checks and is what the interface is configured with. |
| DhcpClient.IpDhcpClient.ResetRtxTimeout | src/aipstack/ip/IpDhcpClient.h:485-489 | The timeout becomes the base timeout. |
| DhcpClient.IpDhcpClient.DoubleRtxTimeout | src/aipstack/ip/IpDhcpClient.h:491-496 | The timeout doubles, capped at the maximum. |
| DhcpClient.IpDhcpClient.SetTimerForRtx | src/aipstack/ip/IpDhcpClient.h:498-502 | The timer is set rtxTimeout seconds ahead. |
| DhcpClient.IpDhcpClient.SendDiscover | src/aipstack/ip/IpDhcpClient.h:1237-1244 | A discover with the current xid is sent. |
| DhcpClient.IpDhcpClient.SendRequest | src/aipstack/ip/IpDhcpClient.h:1247-1273 | A request for the current state is sent. |
| DhcpClient.IpDhcpClient.SendDecline | src/aipstack/ip/IpDhcpClient.h:1275-1292 | A decline of the checked address is sent. |
| DhcpClient.IpDhcpClient.RetrySending | src/aipstack/ip/IpDhcpClient.h:744-761 | The fields become RetrySending of the old fields, and the invariant is kept. |
| DhcpClient.IpDhcpClient.HandleDhcpUp | src/aipstack/ip/IpDhcpClient.h:1201-1218 | The lease's address and gateway are set and the callback is made. |
| DhcpClient.IpDhcpClient.HandleDhcpDown | src/aipstack/ip/IpDhcpClient.h:1220-1234 | Gateway and address are removed and the callback, when asked for, is made. |
| DhcpClient.IpDhcpClient.StartDiscoveryOrRebooting | src/aipstack/ip/IpDhcpClient.h:505-534 | The fields become the machine's start of a transaction. |
| DhcpClient.IpDhcpClient.StartDiscovery | src/aipstack/ip/IpDhcpClient.h:536-543 | The remembered address is dropped and discovery starts. |
| DhcpClient.IpDhcpClient.HandleExpiredLease | src/aipstack/ip/IpDhcpClient.h:545-554 | Discovery restarts and a held lease is removed. |
| DhcpClient.IpDhcpClient.GoResetting | src/aipstack/ip/IpDhcpClient.h:1115-1134 | The fields become the machine's go_resetting. |
| DhcpClient.IpDhcpClient.GoChecking | src/aipstack/ip/IpDhcpClient.h:1136-1154 | The fields become the machine's go_checking. |
| DhcpClient.IpDhcpClient.GoBound | src/aipstack/ip/IpDhcpClient.h:1156-1199 | The fields become the machine's go_bound. |
| DhcpClient.IpDhcpClient.ArmBoundTimer | src/aipstack/ip/IpDhcpClient.h:1175-1195 | The client enters Bound with the timer set towards T1. |
| DhcpClient.IpDhcpClient.HandleTimerSelecting | src/aipstack/ip/IpDhcpClient.h:584-602 | The fields become the machine's Selecting timeout. |
| DhcpClient.IpDhcpClient.HandleTimerRebootingRequesting | src/aipstack/ip/IpDhcpClient.h:604-630 | The fields become the machine's request timeout. |
| DhcpClient.IpDhcpClient.HandleTimerChecking | src/aipstack/ip/IpDhcpClient.h:632-652 | The fields become the machine's ARP check timeout. |
| DhcpClient.IpDhcpClient.LeaseTimerSeconds | src/aipstack/ip/IpDhcpClient.h:702-733 | The seconds chosen by the source's Min/Max chain are NextLeaseTimerSeconds. |
| DhcpClient.IpDhcpClient.HandleTimerBoundRenewingRebinding | src/aipstack/ip/IpDhcpClient.h:654-742 | The fields become the machine's lease timer. |
| DhcpClient.IpDhcpClient.ContinueLease | src/aipstack/ip/IpDhcpClient.h:678-741 | The lease timer short of expiry, in place. |
| DhcpClient.IpDhcpClient.AdvanceLeaseState | src/aipstack/ip/IpDhcpClient.h:681-698 | The lease seconds advance and the state moves at T1 and T2, in place. |
| DhcpClient.IpDhcpClient.RearmLeaseTimer | src/aipstack/ip/IpDhcpClient.h:702-741 | The request is sent unless bound and the lease timer is re-armed, in place. |
| DhcpClient.IpDhcpClient.RequestUnlessBound | src/aipstack/ip/IpDhcpClient.h:724-729 | While renewing or rebinding, a request is sent and its time recorded. |
| DhcpClient.IpDhcpClient.ArmLeaseTimer | src/aipstack/ip/IpDhcpClient.h:738-741 | The lease seconds and the timer advance by the chosen seconds. |
| DhcpClient.IpDhcpClient.TimerHandler | src/aipstack/ip/IpDhcpClient.h:556-575 | The fields become the machine's timer expiry, and the invariant is kept. |
| DhcpClient.IpDhcpClient.DispatchTimer | src/aipstack/ip/IpDhcpClient.h:556-575 | The handler of the current state runs. |
| DhcpClient.IpDhcpClient.HandleNak | src/aipstack/ip/IpDhcpClient.h:850-870 | The fields become the machine's NAK handling. |
| DhcpClient.IpDhcpClient.HandleOffer | src/aipstack/ip/IpDhcpClient.h:876-906 | The fields become the machine's offer handling. |
| DhcpClient.IpDhcpClient.HandleAck | src/aipstack/ip/IpDhcpClient.h:908-962 | The fields become the machine's ack handling. |
| DhcpClient.IpDhcpClient.ProcessReceivedDhcpMessage | src/aipstack/ip/IpDhcpClient.h:785-963 | The fields become the machine's datagram handling, and the invariant is kept. |
| DhcpClient.IpDhcpClient.IfaceStateChanged | src/aipstack/ip/IpDhcpClient.h:965-1000 | The fields become the machine's link change, and the invariant is kept. |
| DhcpClient.IpDhcpClient.ArpInfoReceived | src/aipstack/ip/IpDhcpClient.h:1002-1017 | The fields become the machine's ARP reply handling, and the invariant is kept. |

## Left out

- UDP transport is not modelled: `udpIp4PacketReceived` (lines 763-783), its source-port and destination checks, buffer allocation and the byte layout of the header (lines 794-830, 1320-1360). A received datagram is an abstract record, either too short or with header fields and parsed options. A send is an `Action`.
- The DHCP option codec (`IpDhcpOptions.h`) is not part of this model. Parsing yields a `RecvOptions` record, or `None` when it fails; the send side is a `SendOptions` record.
- The TTL of outgoing datagrams, `MaxDnsServers` and the size limits on the client and vendor-class identifiers are not modelled. The identifiers and the DNS server list are unbounded sequences.
- The platform timer, clock, ARP observer, interface observer and address-setting APIs are foreign. The time is the parameter `now`. The timer is `timerArmed`/`timerAt`, and the observer is `arpObserving`. Address, gateway, ARP query and callbacks are logged actions.
- The wrap-around of `TimeType` arithmetic is not modelled. Time is a natural number, and the callers guarantee that `now` is not before the timer time or the request send time.
  - This covers the subtractions at lines 670 and 1167.
  - It also covers the products in `SecToTicksNoAssert` (line 469) and the timer-time additions (lines 739-740, 1193-1194), which the model computes exactly rather than modulo the `TimeType` width.
  - For all of these, the source's modular results agree with the exact ones, because every delay stays within the working time span (`LeaseTimerDeadline`, `GoBoundFacts`).
- `new_xid` (lines 1363-1366) takes the xid from the clock. Here the fresh xid is the parameter `x`.
- The registration for a send retry after a failed send is not modelled: sends always succeed in the log, and `RetrySending` may be called at any time.
- Fields the source leaves uninitialised in the constructor are zero in the model, with the retransmission timeout at its base value. No property depends on them before they are set.
- `src/aipstack/tcp/TcpListener.h` and `src/aipstack/misc/MacroMap.h` are not part of this model: the first is a listener shell of the TCP component and the second holds preprocessor macros.
