/** Building glink frames and putting them on the wire. */
module Glink {
  import opened Bytes
  import opened Scanner

  datatype Option<+T> = None | Some(value: T)

  /** struct glink_addr. */
  datatype Addr = Addr(src: u32, dst: u32, pkid: u16)

  const FRAME_VERSION: u32 := 0x001A_0001
  const GLINK_FRAME_H := 8
  const GLINK_BASE_H := 32
  const GLINK_OFFSET_CMDID := 28
  const GLINK_OFFSET_DATA := 36

  /** TMS_DEFAULT_LOCAL_ADDR, TMS_DEFAULT_RMOTE_ADDR and packet id 0. */
  const DEFAULT_ADDR := Addr(0x0e, 0x1e, 0)

  /** The base header as it goes over the wire. */
  function Header(a: Addr, cmdid: u32, datalen: u32): bytes {
    (WireBytes((GLINK_FRAME_H + GLINK_BASE_H + datalen) % 0x1_0000_0000) + WireBytes(FRAME_VERSION)
     + WireBytes(a.src) + WireBytes(a.dst))
    + ([0, 0] + WireBytes16(a.pkid)
       + [0, 0, 0, 0] + WireBytes(cmdid) + WireBytes((8 + datalen) % 0x1_0000_0000))
  }

  function Frame(header: bytes, payload: bytes): bytes {
    HEAD_TAG + header + payload + TAIL_TAG
  }

  /** A message a sender can frame: the declared length fits a signed 32-bit word. */
  datatype Msg = Msg(addr: Addr, cmdid: u32, payload: bytes) {
    predicate Sendable() {
      MIN_FRAME + |payload| <= INT_MAX
    }

    function Encode(): bytes
      requires Sendable()
    {
      Frame(Header(addr, cmdid, |payload|), payload)
    }
  }

  /** struct glink_base: host words. */
  class GlinkBase {
    var pklen: u32
    var version: u32
    var src: u32
    var dst: u32
    var kind: u16
    var pkid: u16
    var reserve: u32
    var cmdid: u32
    var datalen: u32

    /** A struct on the stack: nothing is known of its fields. */
    constructor () {
    }

    /** The 32 bytes the struct occupies in memory. */
    function Image(): (r: bytes)
      reads this
      ensures |r| == GLINK_BASE_H
    {
      (HostBytes(pklen) + HostBytes(version) + HostBytes(src) + HostBytes(dst))
      + (HostBytes16(kind) + HostBytes16(pkid)
         + HostBytes(reserve) + HostBytes(cmdid) + HostBytes(datalen))
    }

    function Address(): Addr
      reads this
    {
      Addr(src, dst, pkid)
    }

    /** tms_FillGlinkFrame. */
    method Fill(paddr: Option<Addr>)
      modifies `src, `dst, `pkid
      ensures Address() == if paddr == None then Addr(0x0e, 0x1e, 0) else paddr.value
    {
      if paddr.None? {
        src, dst, pkid := 0x0e, 0x1e, 0;
      } else {
        src, dst, pkid := paddr.value.src, paddr.value.dst, paddr.value.pkid;
      }
    }

    /** glink_Build: after it the struct's memory is the wire header. */
    method Build(cmd: u32, len: u32)
      modifies this
      ensures Image() == Header(old(Address()), cmd, len)
    {
      HtonlBytes((GLINK_FRAME_H + GLINK_BASE_H + len) % 0x1_0000_0000);
      HtonlBytes(FRAME_VERSION);
      HtonlBytes(src);
      HtonlBytes(dst);
      HtonsBytes(pkid);
      HtonlBytes(cmd);
      HtonlBytes((8 + len) % 0x1_0000_0000);
      assert HostBytes(0) == [0, 0, 0, 0];
      hide HostBytes, WireBytes, Htonl, Htons;
      pklen := Htonl((GLINK_FRAME_H + GLINK_BASE_H + len) % 0x1_0000_0000);
      version := Htonl(FRAME_VERSION);
      src := Htonl(src);
      dst := Htonl(dst);
      kind := 0;
      pkid := Htons(pkid);
      reserve := 0;
      cmdid := Htonl(cmd);
      datalen := Htonl((8 + len) % 0x1_0000_0000);
    }
  }
}
