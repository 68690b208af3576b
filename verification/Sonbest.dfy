/**
 The SONBEST SD5110B sensor of devs/sonbest-SD5110B.cpp: the eight-byte read command it is
 polled with, and how a reply is recognised in the receive buffer.
 */
module Sonbest {
  import opened Bytes
  import opened Crc16

  const DATA_PACKET_SIZE := 9

  /** The read command for a device address, without its trailer. */
  function Command(addr: byte): (m: seq<byte>)
  {
    [addr, 0x03, 0x00, 0x00, 0x00, 0x02]
  }

  /** A message with its CRC appended, low byte first. */
  function Sealed(m: seq<byte>): (f: seq<byte>)
    ensures |f| == |m| + 2 && f[..|m|] == m
  {
    m + [CrcWord(m) % 256, CrcWord(m) / 256]
  }

  /** Of all two-byte trailers, exactly the one Sealed appends brings the CRC of the frame to zero. */
  lemma OnlySealedChecks(m: seq<byte>, a: byte, b: byte)
    ensures CrcWord(m + [a, b]) == 0 <==> m + [a, b] == Sealed(m)
  {
    TrailerChecks(m, a, b);
    TrailerInjective(m, a, b, CrcWord(m) % 256, CrcWord(m) / 256);
  }

  lemma TrailerInjective(m: seq<byte>, a: byte, b: byte, a': byte, b': byte)
    ensures m + [a, b] == m + [a', b'] <==> a == a' && b == b'
  {
    assert (m + [a, b])[|m|] == a && (m + [a, b])[|m| + 1] == b;
    assert (m + [a', b'])[|m|] == a' && (m + [a', b'])[|m| + 1] == b';
  }

  class SonbestSd5110b {
    var addr: byte
    // The static buffer that send_cmd fills.
    const readCmd: array<byte>

    ghost predicate Valid()
      reads this
    {
      addr != 0 && readCmd.Length == 8
    }

    /** Address 0 is the Modbus broadcast address; it is replaced by 1. */
    constructor (addr: byte)
      ensures Valid() && fresh(readCmd)
      ensures this.addr == if addr == 0 then 1 else addr
    {
      this.addr := if addr == 0 then 1 else addr;
      readCmd := new byte[8](_ => 0);
    }

    method SetAddr(addr: byte)
      requires Valid()
      modifies this
      ensures Valid()
      ensures this.addr == if addr == 0 then old(this.addr) else addr
    {
      if addr == 0 {
        return;
      }
      this.addr := addr;
    }

    /**
     Builds the sealed read command and writes it out; written is what the system call returned. The
     command is function 0x03 from register 0 on, for as many registers as a reply has data bytes for:
     four, between its address, function and count and its own CRC.
     */
    method SendCmd(fd: int, written: int) returns (ok: bool)
      requires Valid()
      modifies readCmd
      ensures Valid()
      ensures fd <= 0 ==> !ok && readCmd[..] == old(readCmd[..])
      ensures fd > 0 ==> readCmd[..] == Sealed(Command(addr)) && ok == (written >= 8)
      ensures fd > 0 ==>
                && readCmd[0] == addr && readCmd[1] == 0x03 && 256 * readCmd[2] + readCmd[3] == 0
                && (var registers := 256 * readCmd[4] + readCmd[5];
                    2 * registers == 0x04 && 3 + 2 * registers + 2 == DATA_PACKET_SIZE)
                && CrcWord(readCmd[..]) == 0
    {
      if 0 >= fd {
        return false;
      }
      FillCommand();
      var crc := CRC16(readCmd, 6);
      FillTrailer(crc);
      assert readCmd[..] == Sealed(Command(addr));
      OnlySealedChecks(Command(addr), readCmd[6], readCmd[7]);
      ok := written >= 8;
    }

    method FillCommand()
      requires Valid()
      modifies readCmd
      ensures readCmd[..6] == Command(addr)
    {
      forall i | 0 <= i < 8 {
        readCmd[i] := 0;
      }
      readCmd[0] := addr;
      readCmd[1] := 0x03;
      readCmd[2] := 0x0;
      readCmd[3] := 0x0;
      readCmd[4] := 0x0;
      readCmd[5] := 0x2;
    }

    /** The CRC goes behind the command, low byte first. */
    method FillTrailer(crc: int)
      requires Valid() && 0 <= crc < 0x10000
      modifies readCmd
      ensures readCmd[..] == old(readCmd[..6]) + [crc % 256, crc / 256]
    {
      readCmd[6] := crc % 256;
      readCmd[7] := crc / 256;
    }

    /**
     Looks for a reply header in size bytes of memory; the scan may read two bytes past them.
     Whatever the bytes are, the answer depends on their number alone.
     */
    static method RecognizePacket(buf: seq<byte>, size: int) returns (len: int)
      requires size + 2 <= |buf|
      ensures len == if size < DATA_PACKET_SIZE then 0 else DATA_PACKET_SIZE
    {
      if size < DATA_PACKET_SIZE {
        return 0;
      }
      for i := 0 to size
      {
        if buf[i] < 249 && buf[i] > 0 && buf[i + 1] == 0x3 && buf[i + 2] == 0x4 && size - i >= DATA_PACKET_SIZE {
          return DATA_PACKET_SIZE;
        }
      }
      return 9;
    }
  }
}
