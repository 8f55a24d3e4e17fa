/**
  The netlink records of the IPsec tables.  They are parametric in the representation of
  addresses (`I`) and networks (`N`), so that the byte-level comparison functions and the
  reconcilers, which work on canonical values, share one definition.
 */
module Xfrm {
  import opened Options
  import opened Addresses

  /** A security parameter index; 0 means none. */
  datatype SPI = SPI(bits: bv32)

  datatype Mark = Mark(value: nat, mask: nat)

  datatype Algo = Algo(name: string, key: seq<bv8>, truncateLen: nat, icvLen: nat)

  datatype Encap<I> = Encap(kind: nat, srcPort: nat, dstPort: nat, originalAddress: I)

  datatype Limits = Limits(byteSoft: nat, byteHard: nat, packetSoft: nat, packetHard: nat,
                           timeSoft: nat, timeHard: nat, timeUseSoft: nat, timeUseHard: nat)

  datatype StateOf<I> = State(
    src: I, dst: I, proto: nat, mode: nat, spi: SPI, reqid: nat, replayWindow: nat,
    limits: Limits, mark: Option<Mark>,
    auth: Option<Algo>, crypt: Option<Algo>, aead: Option<Algo>, encap: Option<Encap<I>>)

  datatype Dir = In | Out | Fwd | SocketIn | SocketOut

  datatype TmplOf<I> = Tmpl(dst: I, src: I, proto: nat, mode: nat, spi: SPI, reqid: nat)

  datatype PolicyOf<N, I> = Policy(
    dst: N, src: N, proto: nat, dstPort: nat, srcPort: nat, dir: Dir, priority: nat,
    index: nat, mark: Option<Mark>, tmpls: seq<TmplOf<I>>)

  type State = StateOf<Option<IP>>
  type Tmpl = TmplOf<Option<IP>>
  type Policy = PolicyOf<Option<Net>, Option<IP>>

  const PROTO_UDP: nat := 17
  const PROTO_ESP: nat := 50
  const PROTO_AH: nat := 51
  const MODE_TUNNEL: nat := 1
}
