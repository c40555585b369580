/*
 * The DHCP messages the client composes (discover, request, decline) and
 * the header checks it applies to the messages it receives.
 */
module DhcpMessages {
  import opened DhcpTypes

  /** Common composition of every outgoing message (send_dhcp_message). */
  function DhcpMessage(id: Identity, msgType: uint8, opts: SendOptions, xid: uint32,
                       ciaddr: Ip4Addr, dstAddr: Ip4Addr): (m: OutMessage)
    // the BOOTP header
    ensures m.op == BootRequest && m.htype == HwTypeEthernet && m.hlen == MacAddrSize
    ensures m.xid == xid && m.ciaddr == ciaddr && m.chaddr == id.mac && m.magic == DhcpMagic
    ensures m.msgType == msgType
    // addressing and send flags
    ensures m.srcAddr == ciaddr && m.dstAddr == dstAddr
    ensures m.allowBroadcast
    ensures m.allowNonLocalSrc <==> ciaddr == ZeroAddr
    // the options added here; the rest are the caller's
    ensures m.options.dhcpServerIdentifier == opts.dhcpServerIdentifier
    ensures m.options.requestedIpAddress == opts.requestedIpAddress
    ensures m.options.message == opts.message
    ensures m.options.clientIdentifier ==
      (if |id.clientId| > 0 then Some(id.clientId) else opts.clientIdentifier)
    ensures m.options.vendorClassIdentifier ==
      (if |id.vendorClassId| > 0 && msgType != DhcpDecline then Some(id.vendorClassId)
       else opts.vendorClassIdentifier)
    ensures m.options.maxDhcpMessageSize == (msgType != DhcpDecline || opts.maxDhcpMessageSize)
    ensures m.options.parameterRequestList == (msgType != DhcpDecline || opts.parameterRequestList)
  {
    var o1 := if |id.clientId| > 0 then opts.(clientIdentifier := Some(id.clientId)) else opts;
    var o2 := if |id.vendorClassId| > 0 && msgType != DhcpDecline
              then o1.(vendorClassIdentifier := Some(id.vendorClassId)) else o1;
    var o3 := if msgType != DhcpDecline
              then o2.(maxDhcpMessageSize := true, parameterRequestList := true) else o2;
    OutMessage(BootRequest, HwTypeEthernet, MacAddrSize, xid, ciaddr, id.mac, DhcpMagic,
               msgType, o3, ciaddr, dstAddr, true, ciaddr == ZeroAddr)
  }

  /** A DHCPDISCOVER, broadcast with no client address (send_discover). */
  function DiscoverMessage(id: Identity, xid: uint32): (m: OutMessage)
    ensures m.msgType == DhcpDiscover && m.xid == xid
    ensures m.ciaddr == ZeroAddr && m.dstAddr == AllOnesAddr && m.allowNonLocalSrc
    ensures m.options.dhcpServerIdentifier.None? && m.options.requestedIpAddress.None?
    ensures m.options.maxDhcpMessageSize && m.options.parameterRequestList
  {
    DhcpMessage(id, DhcpDiscover, NoSendOptions, xid, ZeroAddr, AllOnesAddr)
  }

  /**
   * A DHCPREQUEST as sent in the given state (send_request): in Requesting
   * it names the server and the offered address; in Rebooting it asks for
   * the remembered address; in Renewing and Rebinding the client uses its
   * leased address as ciaddr, unicasting to the server only when Renewing.
   */
  function RequestMessage(id: Identity, state: DhcpState, info: LeaseInfo, xid: uint32): (m: OutMessage)
    requires SendsRequests(state)
    ensures m.msgType == DhcpRequest && m.xid == xid && m.chaddr == id.mac
    ensures m.options.dhcpServerIdentifier ==
      (if state == Requesting then Some(info.dhcpServerIdentifier) else None)
    ensures state == Requesting || state == Rebooting ==>
      m.options.requestedIpAddress == Some(info.ipAddress) && m.ciaddr == ZeroAddr
    ensures state == Renewing || state == Rebinding ==>
      m.options.requestedIpAddress.None? && m.ciaddr == info.ipAddress
    ensures m.dstAddr == (if state == Renewing then info.dhcpServerAddr else AllOnesAddr)
    ensures m.allowNonLocalSrc <==> m.ciaddr == ZeroAddr
    ensures m.options.message.None?
  {
    var withServer := if state == Requesting
                      then NoSendOptions.(dhcpServerIdentifier := Some(info.dhcpServerIdentifier))
                      else NoSendOptions;
    var dst := if state == Renewing then info.dhcpServerAddr else AllOnesAddr;
    if state == Requesting || state == Rebooting then
      DhcpMessage(id, DhcpRequest, withServer.(requestedIpAddress := Some(info.ipAddress)),
                  xid, ZeroAddr, dst)
    else
      DhcpMessage(id, DhcpRequest, withServer, xid, info.ipAddress, dst)
  }

  /** A DHCPDECLINE of the address the ARP check found in use (send_decline). */
  function DeclineMessage(id: Identity, info: LeaseInfo, xid: uint32): (m: OutMessage)
    ensures m.msgType == DhcpDecline && m.xid == xid
    ensures m.options.dhcpServerIdentifier == Some(info.dhcpServerIdentifier)
    ensures m.options.requestedIpAddress == Some(info.ipAddress)
    ensures m.options.message == Some(DeclineMessageArpResponse)
    ensures m.options.vendorClassIdentifier.None?
    ensures !m.options.maxDhcpMessageSize && !m.options.parameterRequestList
    ensures m.ciaddr == ZeroAddr && m.dstAddr == AllOnesAddr
  {
    var opts := NoSendOptions.(
      dhcpServerIdentifier := Some(info.dhcpServerIdentifier),
      requestedIpAddress := Some(info.ipAddress),
      message := Some(DeclineMessageArpResponse));
    DhcpMessage(id, DhcpDecline, opts, xid, ZeroAddr, AllOnesAddr)
  }

  /** The BOOTP header of a reply to this client's current transaction. */
  predicate HeaderSane(m: InboundMessage, xid: uint32, mac: MacAddr)
    requires m.Datagram?
  {
    m.op == BootReply && m.htype == HwTypeEthernet && m.hlen == MacAddrSize &&
    m.xid == xid && m.chaddr == mac
  }

  /** The message types the client acts upon. */
  predicate IsReplyType(t: uint8) {
    t == DhcpOffer || t == DhcpAck || t == DhcpNak
  }

  /**
   * A received datagram that passes every check made before the client
   * looks at the message type: full header, sane BOOTP fields, magic
   * cookie, parseable options naming a known reply type and a server.
   */
  predicate Acceptable(m: InboundMessage, xid: uint32, mac: MacAddr) {
    && m.Datagram?
    && HeaderSane(m, xid, mac)
    && m.magic == DhcpMagic
    && m.options.Some?
    && m.options.value.have.dhcpMessageType
    && IsReplyType(m.options.value.dhcpMessageType)
    && m.options.value.have.dhcpServerIdentifier
  }
}
