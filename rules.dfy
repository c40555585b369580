/*
 * The pure rules of the DHCP client: address sanity, subnet masks, the
 * default renewal and rebinding times, second/tick conversion,
 * retransmission backoff, and the validation and fixup of a DHCPACK.
 */
module DhcpRules {
  import opened DhcpTypes

  type uint64 = x: int | 0 <= x < 0x1_0000_0000_0000_0000

  // ---------------------------------------------------------------- masks

  /** The mask with the top n bits set (Ip4Addr::PrefixMask). */
  function PrefixMask(n: bv8): Ip4Addr
    requires n <= 32
  {
    if n == 0 then 0 else 0xFFFF_FFFF << (32 - n)
  }

  /** Number of leading one bits among the top k bits of x. */
  function LeadingOnes(x: Ip4Addr, k: bv8): (n: bv8)
    requires k <= 32
    ensures n <= k
    decreases k as int
  {
    if k == 0 || x & 0x8000_0000 == 0 then 0 else 1 + LeadingOnes(x << 1, k - 1)
  }

  /** Number of leading one bits of an address (Ip4Addr::countLeadingOnes). */
  function CountLeadingOnes(x: Ip4Addr): (n: bv8)
    ensures n <= 32
  {
    LeadingOnes(x, 32)
  }

  /** A contiguous prefix mask: some number of one bits followed by zeros. */
  ghost predicate IsPrefixMask(m: Ip4Addr) {
    exists n: bv8 :: n <= 32 && m == PrefixMask(n)
  }

  /** Counting the leading ones of the n-bit prefix mask gives back n. */
  lemma {:induction false} LeadingOnesOfPrefixMask(n: bv8, k: bv8)
    requires n <= k <= 32
    ensures LeadingOnes(PrefixMask(n), k) == n
    decreases k as int
  {
    if n > 0 {
      assert PrefixMask(n) & 0x8000_0000 != 0;
      assert PrefixMask(n) << 1 == PrefixMask(n - 1);
      LeadingOnesOfPrefixMask(n - 1, k - 1);
    }
  }

  /** The test of checkAndFixupAck accepts exactly the prefix masks, and reads off their length. */
  lemma PrefixMaskTest(m: Ip4Addr)
    ensures m == PrefixMask(CountLeadingOnes(m)) <==> IsPrefixMask(m)
    ensures forall n: bv8 :: n <= 32 && m == PrefixMask(n) ==> CountLeadingOnes(m) == n
  {
    forall n: bv8 | n <= 32 && m == PrefixMask(n)
      ensures CountLeadingOnes(m) == n
    {
      LeadingOnesOfPrefixMask(n, 32);
    }
  }

  /** The local broadcast address of addr's subnet (Ip4Addr::Join(mask, addr, AllOnes)). */
  function LocalBroadcast(mask: Ip4Addr, addr: Ip4Addr): Ip4Addr {
    (addr & mask) | (AllOnesAddr & !mask)
  }

  /** Whether x lies in the subnet of addr under mask. */
  predicate InSubnet(x: Ip4Addr, addr: Ip4Addr, mask: Ip4Addr) {
    x & mask == addr & mask
  }

  // ---------------------------------------------------------------- offer sanity

  /** Sanity check of an offered address (checkOffer). */
  function CheckOffer(addr: Ip4Addr): (ok: bool)
    ensures ok <==>
      && addr != 0x0000_0000
      && addr != 0xFFFF_FFFF
      && !(0x7F00_0000 <= addr <= 0x7FFF_FFFF)   // 127.0.0.0/8
      && !(0xE000_0000 <= addr <= 0xEFFF_FFFF)   // 224.0.0.0/4
  {
    if addr == ZeroAddr || addr == AllOnesAddr then false
    else if addr & PrefixMask(8) == 0x7F00_0000 then false
    else if addr & PrefixMask(4) == 0xE000_0000 then false
    else true
  }

  // ---------------------------------------------------------------- lease times

  /** Renewal time assumed when the server sends none (section 4.4.5 of RFC 2131). */
  function DefaultRenewTimeForLeaseTime(leaseTimeS: uint32): (r: uint32)
    ensures 2 * r <= leaseTimeS < 2 * r + 2
  {
    leaseTimeS / 2
  }

  /** Rebinding time assumed when the server sends none: 7/8 of the lease, in 64 bits. */
  function DefaultRebindingTimeForLeaseTime(leaseTimeS: uint32): (r: uint32)
    ensures 8 * r <= 7 * leaseTimeS < 8 * r + 8
  {
    var wide: uint64 := leaseTimeS * 7;
    wide / 8
  }

  /** The two defaults are ordered below the lease time. */
  lemma DefaultTimesOrdered(leaseTimeS: uint32)
    ensures DefaultRenewTimeForLeaseTime(leaseTimeS)
         <= DefaultRebindingTimeForLeaseTime(leaseTimeS)
         <= leaseTimeS
  {
  }

  // ---------------------------------------------------------------- time conversion

  /** Seconds to timer ticks, for delays the timer can represent (SecToTicks). */
  function SecToTicks(p: Params, seconds: uint32): (ticks: nat)
    requires p.Valid() && seconds <= p.MaxTimerSeconds()
    ensures ticks <= p.workingTimeSpanTicks
    ensures TicksToSec(p, ticks) == seconds
  {
    TicksToSecOfSecToTicks(p, seconds);
    SecToTicksNoAssert(p, seconds)
  }

  /** Seconds to timer ticks without a range check (SecToTicksNoAssert). */
  function SecToTicksNoAssert(p: Params, seconds: uint32): nat {
    seconds * p.timeFreq
  }

  /** Ticks to whole seconds, rounding down and saturating at the uint32 maximum (TicksToSec). */
  function TicksToSec(p: Params, ticks: nat): (seconds: uint32)
    requires p.timeFreq >= 1
  {
    Min(ticks / p.timeFreq, UInt32Max)
  }

  /** The seconds are the whole seconds in the ticks, unless the count saturates. */
  lemma TicksToSecBounds(p: Params, ticks: nat)
    requires p.timeFreq >= 1
    ensures TicksToSec(p, ticks) * p.timeFreq <= ticks
    ensures TicksToSec(p, ticks) == UInt32Max || ticks < (TicksToSec(p, ticks) + 1) * p.timeFreq
  {
    var f := p.timeFreq;
    var q := ticks / f;
    assert ticks == q * f + ticks % f;
    if q > UInt32Max {
      MulMonotone(UInt32Max, q, f);
    }
  }

  lemma TicksToSecOfSecToTicks(p: Params, seconds: uint32)
    requires p.Valid() && seconds <= p.MaxTimerSeconds()
    ensures SecToTicksNoAssert(p, seconds) <= p.workingTimeSpanTicks
    ensures TicksToSec(p, SecToTicksNoAssert(p, seconds)) == seconds
  {
    var f := p.timeFreq;
    DivMulCancel(seconds, f);
    MulMonotone(seconds, p.workingTimeSpanTicks / f, f);
  }

  lemma MulMonotone(a: nat, b: nat, f: nat)
    requires a <= b
    ensures a * f <= b * f
  {
  }

  lemma MulAdd(a: nat, b: nat, f: nat)
    ensures (a + b) * f == a * f + b * f
  {
  }

  lemma MulAtLeast(x: int, f: int)
    requires x >= 1 && f >= 1
    ensures x * f >= f
  {
  }

  lemma MulDistrib(a: int, q: int, f: int)
    ensures (a - q) * f == a * f - q * f
  {
  }

  lemma DivMulCancel(a: nat, f: nat)
    requires f >= 1
    ensures (a * f) / f == a
  {
    var q := (a * f) / f;
    assert a * f == q * f + (a * f) % f;
    MulDistrib(a, q, f);
    if a > q { MulAtLeast(a - q, f); }
    if a < q { MulAtLeast(q - a, f); MulDistrib(q, a, f); }
  }

  // ---------------------------------------------------------------- backoff

  /** The retransmission timeout after one more retransmission (double_rtx_timeout). */
  function DoubledRtxTimeout(p: Params, rtx: uint8): (r: uint8)
    requires p.Valid()
    ensures r == Min(2 * rtx, p.maxRtxTimeoutSeconds)
  {
    if rtx > p.maxRtxTimeoutSeconds / 2 then p.maxRtxTimeoutSeconds else 2 * rtx
  }

  function Pow2(k: nat): (r: nat)
    ensures r >= 1
  {
    if k == 0 then 1 else 2 * Pow2(k - 1)
  }

  /** The timeout after k retransmissions since the last reset_rtx_timeout. */
  function RtxTimeoutAfter(p: Params, k: nat): uint8
    requires p.Valid()
  {
    if k == 0 then p.baseRtxTimeoutSeconds else DoubledRtxTimeout(p, RtxTimeoutAfter(p, k - 1))
  }

  /** The backoff doubles from the base on every retransmission and is capped at the maximum. */
  lemma {:induction false} RtxTimeoutSchedule(p: Params, k: nat)
    requires p.Valid()
    ensures RtxTimeoutAfter(p, k) == Min(p.baseRtxTimeoutSeconds * Pow2(k), p.maxRtxTimeoutSeconds)
    ensures p.baseRtxTimeoutSeconds <= RtxTimeoutAfter(p, k) <= p.maxRtxTimeoutSeconds
  {
    if k > 0 {
      RtxTimeoutSchedule(p, k - 1);
      assert p.baseRtxTimeoutSeconds * Pow2(k) == 2 * (p.baseRtxTimeoutSeconds * Pow2(k - 1));
    }
  }

  // ---------------------------------------------------------------- ack fixup

  /** The subnet mask assumed by address class when the server sends none; None for class D/E. */
  function ClassfulMask(addr: Ip4Addr): Option<Ip4Addr> {
    if addr < 0x8000_0000 then Some(PrefixMask(8))
    else if addr < 0xC000_0000 then Some(PrefixMask(16))
    else if addr < 0xE000_0000 then Some(PrefixMask(24))
    else None
  }

  /** The mask test of checkAndFixupAck: the mask equals the prefix mask of its leading-ones count. */
  predicate PassesMaskTest(mask: Ip4Addr) {
    mask == PrefixMask(CountLeadingOnes(mask))
  }

  /** A server-given renewal time is kept if at most the lease time, else the lease time. */
  function FixedRenewalTime(opts: RecvOptions): uint32 {
    var lease := opts.ipAddressLeaseTime;
    Min(lease, if opts.have.renewalTime then opts.renewalTime else DefaultRenewTimeForLeaseTime(lease))
  }

  /** A rebinding time is clamped between the renewal time and the lease time. */
  function FixedRebindingTime(opts: RecvOptions): uint32 {
    var lease := opts.ipAddressLeaseTime;
    Max(FixedRenewalTime(opts),
        Min(lease, if opts.have.rebindingTime then opts.rebindingTime
                   else DefaultRebindingTimeForLeaseTime(lease)))
  }

  /** The options with the renewal and rebinding times replaced by their fixed values. */
  function WithFixedLeaseTimes(opts: RecvOptions): RecvOptions {
    opts.(renewalTime := FixedRenewalTime(opts), rebindingTime := FixedRebindingTime(opts))
  }

  /**
   * The acknowledged options after validation and fixup, or None when the
   * ack is to be dropped: the specification of checkAndFixupAck.
   */
  function FixedAck(addr: Ip4Addr, opts: RecvOptions): Option<RecvOptions> {
    var mask := if opts.have.subnetMask then Some(opts.subnetMask) else ClassfulMask(addr);
    if !CheckOffer(addr) || !opts.have.ipAddressLeaseTime || mask.None? then None
    else if !PassesMaskTest(mask.value) || addr == LocalBroadcast(mask.value, addr) then None
    else
      Some(WithFixedLeaseTimes(opts.(
        subnetMask := mask.value,
        have := opts.have.(router := opts.have.router && InSubnet(opts.router, addr, mask.value)))))
  }

  /** Which acks are dropped and which are accepted. */
  lemma FixedAckAcceptance(addr: Ip4Addr, opts: RecvOptions)
    ensures !CheckOffer(addr) || !opts.have.ipAddressLeaseTime ==> FixedAck(addr, opts).None?
    ensures !opts.have.subnetMask && addr >= 0xE000_0000 ==> FixedAck(addr, opts).None?
    ensures opts.have.subnetMask && !IsPrefixMask(opts.subnetMask) ==> FixedAck(addr, opts).None?
    ensures CheckOffer(addr) && opts.have.ipAddressLeaseTime && opts.have.subnetMask &&
            IsPrefixMask(opts.subnetMask) && addr != LocalBroadcast(opts.subnetMask, addr) ==>
      FixedAck(addr, opts).Some?
    ensures CheckOffer(addr) && opts.have.ipAddressLeaseTime && !opts.have.subnetMask &&
            addr < 0xE000_0000 && addr != LocalBroadcast(ClassfulMask(addr).value, addr) ==>
      FixedAck(addr, opts).Some?
  {
    var mask := if opts.have.subnetMask then Some(opts.subnetMask) else ClassfulMask(addr);
    if mask.Some? {
      PrefixMaskTest(mask.value);
      if !opts.have.subnetMask {
        ClassfulMaskIsPrefixMask(addr);
      }
    }
  }

  lemma ClassfulMaskIsPrefixMask(addr: Ip4Addr)
    requires addr < 0xE000_0000
    ensures ClassfulMask(addr).Some? && IsPrefixMask(ClassfulMask(addr).value)
  {
    var n: bv8 := if addr < 0x8000_0000 then 8 else if addr < 0xC000_0000 then 16 else 24;
    assert ClassfulMask(addr).value == PrefixMask(n);
  }

  /** The address information of an accepted ack after fixup. */
  lemma FixedAckAddressing(addr: Ip4Addr, opts: RecvOptions)
    requires FixedAck(addr, opts).Some?
    ensures var f := FixedAck(addr, opts).value;
      && CheckOffer(addr) && opts.have.ipAddressLeaseTime
      && IsPrefixMask(f.subnetMask) && addr != LocalBroadcast(f.subnetMask, addr)
      && (opts.have.subnetMask ==> f.subnetMask == opts.subnetMask)
      && (!opts.have.subnetMask ==>
            f.subnetMask == (if addr < 0x8000_0000 then PrefixMask(8)
                             else if addr < 0xC000_0000 then PrefixMask(16) else PrefixMask(24)))
      && f.have.router == (opts.have.router && InSubnet(opts.router, addr, f.subnetMask))
      && f.router == opts.router && f.dnsServers == opts.dnsServers
      && f.dhcpServerIdentifier == opts.dhcpServerIdentifier
  {
    PrefixMaskTest(FixedAck(addr, opts).value.subnetMask);
  }

  /** The times of an accepted ack after fixup: ordered, defaulted, and kept when consistent. */
  lemma FixedAckTimes(addr: Ip4Addr, opts: RecvOptions)
    requires FixedAck(addr, opts).Some?
    ensures var f := FixedAck(addr, opts).value;
      && f.ipAddressLeaseTime == opts.ipAddressLeaseTime
      && f.renewalTime <= f.rebindingTime <= f.ipAddressLeaseTime
      && (!opts.have.renewalTime ==> f.renewalTime == opts.ipAddressLeaseTime / 2)
      && (!opts.have.renewalTime && !opts.have.rebindingTime ==>
            f.rebindingTime == opts.ipAddressLeaseTime * 7 / 8)
      && (!opts.have.rebindingTime ==>
            f.rebindingTime == Max(f.renewalTime, opts.ipAddressLeaseTime * 7 / 8))
      && (opts.have.renewalTime && opts.renewalTime <= opts.ipAddressLeaseTime ==>
            f.renewalTime == opts.renewalTime)
      && (opts.have.renewalTime && opts.have.rebindingTime &&
          opts.renewalTime <= opts.rebindingTime <= opts.ipAddressLeaseTime ==>
            f.rebindingTime == opts.rebindingTime)
  {
    DefaultTimesOrdered(opts.ipAddressLeaseTime);
  }

  /** Checks the address information of an ack and fills in missing or bad fields (checkAndFixupAck). */
  method CheckAndFixupAck(addr: Ip4Addr, opts: RecvOptions) returns (ok: bool, fixed: RecvOptions)
    ensures ok == FixedAck(addr, opts).Some?
    ensures ok ==> fixed == FixedAck(addr, opts).value
  {
    fixed := opts;
    if !CheckOffer(addr) {
      return false, fixed;
    }
    if !fixed.have.ipAddressLeaseTime {
      return false, fixed;
    }
    if !fixed.have.subnetMask {
      var classful := ClassfulMask(addr);
      if classful.None? {
        return false, fixed;
      }
      fixed := fixed.(subnetMask := classful.value);
    }
    if !PassesMaskTest(fixed.subnetMask) {
      return false, fixed;
    }
    var localBcast := LocalBroadcast(fixed.subnetMask, addr);
    if addr == localBcast {
      return false, fixed;
    }
    if fixed.have.router {
      if !InSubnet(fixed.router, addr, fixed.subnetMask) {
        fixed := fixed.(have := fixed.have.(router := false));
      }
    }
    fixed := FixupLeaseTimes(fixed);
    return true, fixed;
  }

  /** The last part of checkAndFixupAck: defaults for missing times, then clamping. */
  method FixupLeaseTimes(opts: RecvOptions) returns (fixed: RecvOptions)
    ensures fixed == WithFixedLeaseTimes(opts)
  {
    fixed := opts;
    if !fixed.have.renewalTime {
      fixed := fixed.(renewalTime := DefaultRenewTimeForLeaseTime(fixed.ipAddressLeaseTime));
    }
    fixed := fixed.(renewalTime := Min(fixed.ipAddressLeaseTime, fixed.renewalTime));
    if !fixed.have.rebindingTime {
      fixed := fixed.(rebindingTime := DefaultRebindingTimeForLeaseTime(fixed.ipAddressLeaseTime));
    }
    fixed := fixed.(rebindingTime :=
      Max(fixed.renewalTime, Min(fixed.ipAddressLeaseTime, fixed.rebindingTime)));
  }
}
