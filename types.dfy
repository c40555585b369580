/*
 * Data model of the DHCP client: fixed-width integers, IPv4 and MAC
 * addresses, the client's states and events, the lease record, the
 * parsed-options records exchanged with the option codec, the abstract
 * inbound datagram, the outgoing message and the log of external effects.
 */
module DhcpTypes {

  /** The source's std::uint8_t and std::uint32_t. */
  type uint8 = x: int | 0 <= x < 0x100
  type uint32 = x: int | 0 <= x < 0x1_0000_0000

  const UInt32Max: uint32 := 0xFFFF_FFFF

  /** An IPv4 address as its 32-bit big-endian value; a MAC address as its 48 bits. */
  type Ip4Addr = bv32
  type MacAddr = bv48
  type Byte = bv8

  const ZeroAddr: Ip4Addr := 0
  const AllOnesAddr: Ip4Addr := 0xFFFF_FFFF

  datatype Option<T> = None | Some(value: T)

  function Min(a: int, b: int): int { if a <= b then a else b }
  function Max(a: int, b: int): int { if a <= b then b else a }

  /** The nine states of the client (IpDhcpClient.h, DhcpState). */
  datatype DhcpState =
    | LinkDown      // link is down
    | Resetting     // waiting a while before restarting discovery
    | Rebooting     // requesting a previously known address
    | Selecting     // discover sent, waiting for an offer
    | Requesting    // request sent after an offer, waiting for an ack
    | Checking      // probing the acked address with ARP
    | Bound         // lease held, not renewing yet
    | Renewing      // lease held, unicasting requests to the server
    | Rebinding     // lease held, broadcasting requests

  /** A lease is held exactly in Bound, Renewing and Rebinding. */
  predicate HasLease(s: DhcpState) {
    s == Bound || s == Renewing || s == Rebinding
  }

  /** The states in which the client sends DHCPREQUEST messages. */
  predicate SendsRequests(s: DhcpState) {
    s == Requesting || s == Renewing || s == Rebinding || s == Rebooting
  }

  /** The states in which a server reply is awaited; all other states ignore datagrams. */
  predicate AwaitsReply(s: DhcpState) {
    s == Rebooting || s == Selecting || s == Requesting || s == Renewing || s == Rebinding
  }

  /** Events reported to the user's handler (IpDhcpClientEvent). */
  datatype ClientEvent = LeaseObtained | LeaseRenewed | LeaseLost | LinkDown

  /** Static configuration (IpDhcpClientOptions) together with the platform's timer span. */
  datatype Params = Params(
    xidReuseMax: uint8,
    maxRequests: uint8,
    maxRebootRequests: uint8,
    baseRtxTimeoutSeconds: uint8,
    maxRtxTimeoutSeconds: uint8,
    resetTimeoutSeconds: uint8,
    minRenewRtxTimeoutSeconds: uint8,
    arpResponseTimeoutSeconds: uint8,
    numArpQueries: uint8,
    timeFreq: nat,              // platform timer ticks per second
    workingTimeSpanTicks: nat)  // how far ahead the platform timer can be set
  {
    /** Maximum number of seconds the timer may be set ahead. */
    function MaxTimerSeconds(): (r: uint32)
      requires timeFreq >= 1
      ensures r <= workingTimeSpanTicks / timeFreq
    {
      Min(UInt32Max, workingTimeSpanTicks / timeFreq)
    }

    /** The compile-time checks the source places on its parameters. */
    predicate Valid() {
      && 1 <= xidReuseMax <= 5
      && 1 <= maxRequests <= 5
      && 1 <= maxRebootRequests <= 5
      && 1 <= baseRtxTimeoutSeconds <= 4
      && baseRtxTimeoutSeconds <= maxRtxTimeoutSeconds <= 255
      && 1 <= resetTimeoutSeconds <= 128
      && 10 <= minRenewRtxTimeoutSeconds <= 255
      && 1 <= arpResponseTimeoutSeconds <= 5
      && 1 <= numArpQueries <= 10
      && timeFreq >= 1
      && MaxTimerSeconds() >= 255
    }
  }

  /** The default parameter values, for a platform with the given clock. */
  function DefaultParams(timeFreq: nat, workingTimeSpanTicks: nat): (p: Params)
    requires timeFreq >= 1 && workingTimeSpanTicks / timeFreq >= 255
    ensures p.Valid()
    ensures p.timeFreq == timeFreq && p.workingTimeSpanTicks == workingTimeSpanTicks
  {
    Params(3, 3, 2, 3, 64, 3, 60, 1, 2, timeFreq, workingTimeSpanTicks)
  }

  /** What the client sends about itself: own MAC, client and vendor-class identifiers. */
  datatype Identity = Identity(mac: MacAddr, clientId: seq<Byte>, vendorClassId: seq<Byte>)

  /** The lease record (LeaseInfo); in LinkDown ipAddress is the address to reboot with, or zero. */
  datatype LeaseInfo = LeaseInfo(
    ipAddress: Ip4Addr,
    dhcpServerIdentifier: uint32,
    dhcpServerAddr: Ip4Addr,
    leaseTimeS: uint32,
    renewalTimeS: uint32,
    rebindingTimeS: uint32,
    subnetMask: Ip4Addr,
    serverMac: MacAddr,
    haveRouter: bool,
    router: Ip4Addr,
    domainNameServers: seq<Ip4Addr>)

  /** Which options a received message carried (DhcpRecvOptions::have). */
  datatype RecvHave = RecvHave(
    dhcpMessageType: bool,
    dhcpServerIdentifier: bool,
    ipAddressLeaseTime: bool,
    subnetMask: bool,
    router: bool,
    renewalTime: bool,
    rebindingTime: bool)

  /** The options of a received message, as the option codec yields them. */
  datatype RecvOptions = RecvOptions(
    have: RecvHave,
    dhcpMessageType: uint8,
    dhcpServerIdentifier: uint32,
    ipAddressLeaseTime: uint32,
    subnetMask: Ip4Addr,
    router: Ip4Addr,
    renewalTime: uint32,
    rebindingTime: uint32,
    dnsServers: seq<Ip4Addr>)

  /**
   * A datagram from the DHCP server port: either too short to hold a DHCP
   * header, or its header fields and the codec's result for its options
   * (None when the options did not parse).
   */
  datatype InboundMessage =
    | ShortMessage
    | Datagram(
        srcAddr: Ip4Addr,
        srcMac: MacAddr,
        op: uint8,
        htype: uint8,
        hlen: uint8,
        xid: uint32,
        yiaddr: Ip4Addr,
        chaddr: MacAddr,
        magic: uint32,
        options: Option<RecvOptions>)

  /** Header constants of RFC 2131 and message types of section 9.6 of RFC 2132. */
  const BootRequest: uint8 := 1
  const BootReply: uint8 := 2
  const HwTypeEthernet: uint8 := 1
  const MacAddrSize: uint8 := 6
  const DhcpMagic: uint32 := 0x6382_5363

  const DhcpDiscover: uint8 := 1
  const DhcpOffer: uint8 := 2
  const DhcpRequest: uint8 := 3
  const DhcpDecline: uint8 := 4
  const DhcpAck: uint8 := 5
  const DhcpNak: uint8 := 6

  /** Message text of a DHCPDECLINE sent after an ARP response. */
  const DeclineMessageArpResponse: string := "ArpResponse"

  /** The options handed to the codec for an outgoing message (DhcpSendOptions). */
  datatype SendOptions = SendOptions(
    dhcpServerIdentifier: Option<uint32>,
    requestedIpAddress: Option<Ip4Addr>,
    message: Option<string>,
    clientIdentifier: Option<seq<Byte>>,
    vendorClassIdentifier: Option<seq<Byte>>,
    maxDhcpMessageSize: bool,
    parameterRequestList: bool)

  const NoSendOptions := SendOptions(None, None, None, None, None, false, false)

  /** An outgoing DHCP message together with its UDP/IP addressing and send flags. */
  datatype OutMessage = OutMessage(
    op: uint8,
    htype: uint8,
    hlen: uint8,
    xid: uint32,
    ciaddr: Ip4Addr,
    chaddr: MacAddr,
    magic: uint32,
    msgType: uint8,
    options: SendOptions,
    srcAddr: Ip4Addr,
    dstAddr: Ip4Addr,
    allowBroadcast: bool,
    allowNonLocalSrc: bool)

  /** Address and prefix length assigned to the interface. */
  datatype AddrSetting = AddrSetting(prefix: bv8, addr: Ip4Addr)

  /** The external effects of the client, in the order it performs them. */
  datatype Action =
    | Send(msg: OutMessage)
    | ArpQuery(addr: Ip4Addr)
    | SetIp4Addr(setting: Option<AddrSetting>)      // None removes the address
    | SetIp4Gateway(gateway: Option<Ip4Addr>)       // None removes the gateway
    | Callback(event: ClientEvent)
}
