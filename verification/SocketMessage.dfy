/** The header of a socket message: 24 bytes, network byte order, protected by a CRC. */
module MessageHeader {
  import Crc32

  type Bytes = seq<bv8>

  const VERSION_MARK: bv8 := 0x56  // 'V'

  function Be16(x: bv16): (r: Bytes)
    ensures |r| == 2
  {
    [(x >> 8) as bv8, (x & 255) as bv8]
  }

  function Be32(x: bv32): (r: Bytes)
    ensures |r| == 4
  {
    [(x >> 24) as bv8, ((x >> 16) & 255) as bv8, ((x >> 8) & 255) as bv8, (x & 255) as bv8]
  }

  function Joined16(high: bv8, low: bv8): bv16 {
    (low as bv16) + ((high as bv16) << 8)
  }

  function Joined32(a: bv8, b: bv8, c: bv8, d: bv8): bv32 {
    (d as bv32) + ((c as bv32) << 8) + ((b as bv32) << 16) + ((a as bv32) << 24)
  }

  function PeekN16(m: Bytes, at: nat): bv16
    requires at + 2 <= |m|
  {
    Joined16(m[at], m[at + 1])
  }

  function PeekN32(m: Bytes, at: nat): bv32
    requires at + 4 <= |m|
  {
    Joined32(m[at], m[at + 1], m[at + 2], m[at + 3])
  }

  lemma Back16(x: bv16)
    ensures PeekN16(Be16(x), 0) == x
  {
  }

  lemma Back32(x: bv32)
    ensures PeekN32(Be32(x), 0) == x
  {
  }

  lemma Forth32(m: Bytes)
    requires |m| == 4
    ensures Be32(PeekN32(m, 0)) == m
  {
  }

  /** What a header says: the fields that the receiver reads back. */
  datatype Fields = Fields(command: bv16, id: bv32, size: bv32, flags: bv8, kind: bv8, random: bv16, check: bv32)

  /** The first twenty bytes. */
  function Front(f: Fields): (r: Bytes)
    ensures |r| == 20
  {
    [VERSION_MARK, 2] + Be16(f.command) + Be32(f.id) + Be32(f.size) + [f.flags, f.kind] + Be16(f.random) + Be32(f.check)
  }

  function Header(f: Fields): (r: Bytes)
    ensures |r| == 24
  {
    Front(f) + Be32(Crc32.Crc(Front(f)))
  }

  function FieldsOf(m: Bytes): Fields
    requires |m| >= 20
  {
    Fields(PeekN16(m, 2), PeekN32(m, 4), PeekN32(m, 8), m[12], m[13], PeekN16(m, 14), PeekN32(m, 16))
  }

  datatype Verdict = HeaderOk | InvalidProtocolVersion | InvalidPacket

  /** Is the header there? Version 2 has its CRC behind the 20 bytes of version 1. */
  predicate Headed(m: Bytes) {
    |m| >= 20 && (m[0] == VERSION_MARK && m[1] == 2 ==> |m| >= 24)
  }

  /** What becomes of the first bytes that arrive. */
  function Judge(m: Bytes): Verdict
    requires Headed(m)
  {
    if m[0] == VERSION_MARK && m[1] == 2 then
      if PeekN32(m, 20) == Crc32.Crc(m[..20]) then HeaderOk else InvalidPacket
    else if m[0] == VERSION_MARK && m[1] == 1 then
      if PeekN32(m, 16) == Crc32.Crc(m[..16]) then HeaderOk else InvalidPacket
    else
      InvalidProtocolVersion
  }

  lemma PeekSlice(m: Bytes, at: nat)
    requires at + 4 <= |m|
    ensures PeekN32(m, at) == PeekN32(m[at..at + 4], 0)
  {
    hide Joined16, Joined32;
  }

  lemma PeekSlice16(m: Bytes, at: nat)
    requires at + 2 <= |m|
    ensures PeekN16(m, at) == PeekN16(m[at..at + 2], 0)
  {
    hide Joined16, Joined32;
  }

  lemma Slices(f: Fields)
    ensures
      var m := Header(f);
      && m[0] == VERSION_MARK && m[1] == 2 && m[12] == f.flags && m[13] == f.kind
      && m[2..4] == Be16(f.command) && m[4..8] == Be32(f.id) && m[8..12] == Be32(f.size)
      && m[14..16] == Be16(f.random) && m[16..20] == Be32(f.check)
      && m[20..24] == Be32(Crc32.Crc(Front(f))) && m[..20] == Front(f)
  {
    hide Be16, Be32;
  }

  /** Where each field stands, highest byte first. */
  lemma Wire(f: Fields)
    ensures
      var m := Header(f);
      && m[0] == 'V' as bv8 && m[1] == 2
      && m[2] == (f.command >> 8) as bv8 && m[3] == (f.command & 255) as bv8
      && m[4] == (f.id >> 24) as bv8 && m[5] == ((f.id >> 16) & 255) as bv8
      && m[6] == ((f.id >> 8) & 255) as bv8 && m[7] == (f.id & 255) as bv8
      && m[8] == (f.size >> 24) as bv8 && m[9] == ((f.size >> 16) & 255) as bv8
      && m[10] == ((f.size >> 8) & 255) as bv8 && m[11] == (f.size & 255) as bv8
      && m[12] == f.flags && m[13] == f.kind
      && m[14] == (f.random >> 8) as bv8 && m[15] == (f.random & 255) as bv8
      && m[16] == (f.check >> 24) as bv8 && m[17] == ((f.check >> 16) & 255) as bv8
      && m[18] == ((f.check >> 8) & 255) as bv8 && m[19] == (f.check & 255) as bv8
      && m[20] == (Crc32.Crc(m[..20]) >> 24) as bv8 && m[23] == (Crc32.Crc(m[..20]) & 255) as bv8
  {
    hide Crc32.Crc, Header, Front;
    Slices(f);
    var m := Header(f);
    Pair(m, 2, f.command);
    Pair(m, 14, f.random);
    Quad(m, 4, f.id);
    Quad(m, 8, f.size);
    Quad(m, 16, f.check);
    Quad(m, 20, Crc32.Crc(m[..20]));
    hide *;
  }

  lemma Pair(m: Bytes, at: nat, x: bv16)
    requires at + 2 <= |m| && m[at..at + 2] == Be16(x)
    ensures m[at] == (x >> 8) as bv8 && m[at + 1] == (x & 255) as bv8
  {
    var s := m[at..at + 2];
    assert s[0] == m[at] && s[1] == m[at + 1];
  }

  lemma Quad(m: Bytes, at: nat, x: bv32)
    requires at + 4 <= |m| && m[at..at + 4] == Be32(x)
    ensures m[at] == (x >> 24) as bv8 && m[at + 1] == ((x >> 16) & 255) as bv8
    ensures m[at + 2] == ((x >> 8) & 255) as bv8 && m[at + 3] == (x & 255) as bv8
  {
    var s := m[at..at + 4];
    assert s[0] == m[at] && s[1] == m[at + 1] && s[2] == m[at + 2] && s[3] == m[at + 3];
  }

  /** A header that was written is accepted, and every field comes back. */
  lemma RoundTrip(f: Fields)
    ensures Judge(Header(f)) == HeaderOk && FieldsOf(Header(f)) == f
  {
    hide Be16, Be32, PeekN16, PeekN32, Header, Front;
    Slices(f);
    var m := Header(f);
    PeekSlice16(m, 2);
    PeekSlice(m, 4);
    PeekSlice(m, 8);
    PeekSlice16(m, 14);
    PeekSlice(m, 16);
    PeekSlice(m, 20);
    Back16(f.command);
    Back32(f.id);
    Back32(f.size);
    Back16(f.random);
    Back32(f.check);
    Back32(Crc32.Crc(Front(f)));
  }

  /** A change of up to four consecutive bytes between the version and the CRC. */
  lemma BodyChangeRejected(m: Bytes, at: nat, x: Bytes)
    requires |m| == 24 && Judge(m) == HeaderOk && m[1] == 2
    requires 2 <= at && at + |x| <= 20 && |x| <= 4 && x != m[at..at + |x|]
    ensures Judge(m[..at] + x + m[at + |x|..]) == InvalidPacket
  {
    hide PeekN32;
    var n := m[..at] + x + m[at + |x|..];
    assert m[..20] == m[..at] + m[at..at + |x|] + m[at + |x|..20];
    assert n[..20] == m[..at] + x + m[at + |x|..20];
    Crc32.ChangeDetected(m[..at], m[at..at + |x|], x, m[at + |x|..20]);
    PeekSlice(m, 20);
    PeekSlice(n, 20);
    assert m[20..24] == n[20..24];
  }

  /** Another CRC than the right one. */
  lemma CrcChangeRejected(m: Bytes, x: Bytes)
    requires |m| == 24 && Judge(m) == HeaderOk && m[1] == 2
    requires |x| == 4 && x != m[20..]
    ensures Judge(m[..20] + x) == InvalidPacket
  {
    hide PeekN32;
    var n := m[..20] + x;
    PeekSlice(m, 20);
    PeekSlice(n, 20);
    assert n[20..24] == x && n[..20] == m[..20];
    Forth32(x);
    Forth32(m[20..24]);
  }

  /** A change of one byte gets through in one case only: the version becomes 1, and
      the payload's CRC happens to be that of the sixteen bytes in front of it. */
  lemma ByteChangeRejected(m: Bytes, i: nat, b: bv8)
    requires |m| == 24 && Judge(m) == HeaderOk && m[1] == 2
    requires i < 24 && b != m[i]
    ensures Judge(m[i := b]) == HeaderOk <==>
            i == 1 && b == 1 && PeekN32(m, 16) == Crc32.Crc(m[..16][1 := 1])
    ensures i < 2 && !(i == 1 && b == 1) ==> Judge(m[i := b]) == InvalidProtocolVersion
    ensures i >= 2 ==> Judge(m[i := b]) == InvalidPacket
  {
    hide PeekN32;
    var n := m[i := b];
    if 2 <= i < 20 {
      assert n == m[..i] + [b] + m[i + 1..];
      assert m[i..i + 1] == [m[i]];
      BodyChangeRejected(m, i, [b]);
    } else if i >= 20 {
      assert n == m[..20] + n[20..];
      assert n[20..][i - 20] == b && m[20..][i - 20] == m[i];
      CrcChangeRejected(m, n[20..]);
    } else if i == 1 && b == 1 {
      assert n[..16] == m[..16][1 := 1];
      PeekSlice(m, 16);
      PeekSlice(n, 16);
      assert n[16..20] == m[16..20];
    }
  }

  /** The case is real: with this payload CRC, whatever the other fields are, the header
      is taken for one of version 1 once its version byte has changed to 1. */
  lemma VersionChangeAccepted(f: Fields)
    ensures
      var g := f.(check := Crc32.Crc(Front(f)[..16][1 := 1]));
      var m := Header(g);
      Judge(m) == HeaderOk && Judge(m[1 := 1]) == HeaderOk && FieldsOf(m) == g
  {
    var g := f.(check := Crc32.Crc(Front(f)[..16][1 := 1]));
    var m := Header(g);
    RoundTrip(g);
    Slices(g);
    SameStart(f, g);
    hide Header, Front, Judge, PeekN32, PeekN16, Crc32.Crc;
    assert m[..16] == m[..20][..16];
    ByteChangeRejected(m, 1, 1);
  }

  lemma SameStart(f: Fields, g: Fields)
    requires g == f.(check := g.check)
    ensures Front(f)[..16] == Front(g)[..16]
  {
    hide Be16, Be32;
    var start := [VERSION_MARK, 2] + Be16(f.command) + Be32(f.id) + Be32(f.size) + [f.flags, f.kind] + Be16(f.random);
    assert Front(f) == start + Be32(f.check) && Front(g) == start + Be32(g.check);
  }

  function Flip(b: bv8, k: nat): bv8
    requires k < 8
  {
    b ^ ((1 as bv8) << k)
  }

  /** A single flipped bit is always noticed. */
  lemma BitFlipRejected(f: Fields, i: nat, k: nat)
    requires i < 24 && k < 8
    ensures var m := Header(f); Judge(m[i := Flip(m[i], k)]) != HeaderOk
  {
    hide Header, Flip, Judge, PeekN32;
    RoundTrip(f);
    Slices(f);
    var m := Header(f);
    FlippedDiffers(m[i], k);
    ByteChangeRejected(m, i, Flip(m[i], k));
  }

  lemma FlippedDiffers(b: bv8, k: nat)
    requires k < 8
    ensures Flip(b, k) != b && (b == 2 ==> Flip(b, k) != 1)
  {
  }
}

module SocketMessage {
  import opened MessageHeader
  import Crc32

  datatype Arrival = Arrived(payload: Bytes, compressed: bool) | Refused(why: Verdict) | InvalidPayload

  /** The CRC of the payload, or zero for none. */
  function Check(payload: Bytes): bv32 {
    if payload == [] then 0 else Crc32.Crc(payload)
  }

  class SocketMessage {
    var commandId: bv32
    var id: bv32
    var payloadSize: bv64
    var payloadType: bv32
    var version: bv8
    var useCompression: bool
    var supportMsgChannel: bool
    var clientSupportsCompression: bool

    constructor ()
    {
      payloadSize, payloadType, commandId, id, version := 0, 0, 0, 0, 1;
      useCompression, supportMsgChannel, clientSupportsCompression := true, false, false;
    }

    function Flags(compressed: bool): bv8
      reads this
    {
      (if useCompression then 2 else 0) | (if supportMsgChannel then 4 else 0) | (if compressed then 1 else 0)
    }

    /** What this message's header says about a payload of `size` bytes. */
    function Says(size: bv64, compressed: bool, random: bv16, check: bv32): Fields
      reads this
    {
      Fields((commandId & 0xFFFF) as bv16, id, (size & 0xFFFF_FFFF) as bv32, Flags(compressed),
             (payloadType & 0xFF) as bv8, random, check)
    }

    method CompilePacketHeader(buffer: array<bv8>, bufferSize: nat, payload: Bytes, size: bv64,
                               compressed: bool, random: bv16) returns (ok: bool)
      requires bufferSize <= buffer.Length && size as int == |payload|
      modifies buffer
      ensures ok <==> bufferSize >= 24
      ensures ok ==> buffer[..24] == Header(Says(size, compressed, random, Check(payload)))
      ensures ok ==> buffer[24..] == old(buffer[24..])
      ensures ok ==>
                && buffer[0] == 'V' as bv8 && buffer[1] == 2
                && (buffer[12] & 2 != 0 <==> useCompression) && (buffer[12] & 4 != 0 <==> supportMsgChannel)
                && (buffer[12] & 1 != 0 <==> compressed) && buffer[12] < 8
      ensures !ok ==> buffer[..] == old(buffer[..])
    {
      if bufferSize < 24 { return false; }
      hide Crc32.Crc, Front, Header, Be16, Be32, Says;
      Blank(buffer);
      var f := Describe(payload, size, compressed, random);
      PokeStart(buffer, f.command, f.id);
      PokeRest(buffer, f.size, f.flags, f.kind, f.random, f.check);
      FrontOf(f, buffer[..20]);
      Seal(buffer);
      HeaderOf(f);
      Wire(f);
      FlagBits(compressed);
      SaysFlags(size, compressed, random, Check(payload));
      assert buffer[0] == buffer[..24][0] && buffer[1] == buffer[..24][1] && buffer[12] == buffer[..24][12];
      return true;
    }

    lemma FlagBits(compressed: bool)
      ensures var f := Flags(compressed);
              && (f & 2 != 0 <==> useCompression) && (f & 4 != 0 <==> supportMsgChannel)
              && (f & 1 != 0 <==> compressed) && f < 8
    {
    }

    lemma SaysFlags(size: bv64, compressed: bool, random: bv16, check: bv32)
      ensures Says(size, compressed, random, check).flags == Flags(compressed)
    {
    }

    method Describe(payload: Bytes, size: bv64, compressed: bool, random: bv16) returns (f: Fields)
      requires size as int == |payload|
      ensures f == Says(size, compressed, random, Check(payload))
    {
      hide Crc32.Crc, Flags;
      var flags := FlagByte(compressed);
      var crcData := 0;
      if size != 0 { crcData := Crc32.Compute(payload); }
      NoSize(size);
      f := Fields((commandId & 0xFFFF) as bv16, id, (size & 0xFFFF_FFFF) as bv32, flags,
                  (payloadType & 0xFF) as bv8, random, crcData);
    }

    method FlagByte(compressed: bool) returns (flags: bv8)
      ensures flags == Flags(compressed)
    {
      flags := 0;
      if useCompression { flags := flags | 2; }
      if supportMsgChannel { flags := flags | 4; }
      if compressed { flags := flags | 1; }
    }

    method SetFields(m: Bytes)
      requires |m| >= 24
      modifies this`commandId, this`id, this`payloadType, this`payloadSize
      ensures commandId == PeekN16(m, 2) as bv32 && id == PeekN32(m, 4)
      ensures payloadType == m[13] as bv32 && payloadSize == PeekN32(m, 8) as bv64
    {
      hide PeekN16, PeekN32;
      commandId := PeekN16(m, 2) as bv32;
      payloadType := m[13] as bv32;
      id := PeekN32(m, 4);
      payloadSize := PeekN32(m, 8) as bv64;
    }

    /** Does the CRC that belongs to the version hold? */
    method CrcHolds(m: Bytes) returns (ok: bool)
      requires |m| >= 24
      ensures version == 1 ==> (ok <==> PeekN32(m, 16) == Crc32.Crc(m[..16]))
      ensures version != 1 && m[0] == VERSION_MARK && m[1] == 2 ==> (ok <==> PeekN32(m, 20) == Crc32.Crc(m[..20]))
      ensures version != 1 && !(m[0] == VERSION_MARK && m[1] == 2) ==> ok
    {
      hide PeekN32, Crc32.Crc;
      if version == 1 {
        var crc := Crc32.Compute(m[..16]);
        return PeekN32(m, 16) == crc;
      } else if m[0] == VERSION_MARK && m[1] == 2 {
        var crc := Crc32.Compute(m[..20]);
        return PeekN32(m, 20) == crc;
      }
      return true;
    }

    /** Takes the fields out of a header; they are set even if the CRC is wrong. */
    method ReadFromPacketHeader(m: Bytes) returns (flags: bv8, ok: bool)
      requires |m| >= 24
      modifies this`commandId, this`id, this`payloadType, this`payloadSize
      modifies this`clientSupportsCompression, this`supportMsgChannel
      ensures flags == m[12]
      ensures commandId == PeekN16(m, 2) as bv32 && id == PeekN32(m, 4)
      ensures payloadType == m[13] as bv32 && payloadSize == PeekN32(m, 8) as bv64
      ensures version == 1 ==> (ok <==> PeekN32(m, 16) == Crc32.Crc(m[..16]))
      ensures version != 1 && m[0] == VERSION_MARK && m[1] == 2 ==> (ok <==> PeekN32(m, 20) == Crc32.Crc(m[..20]))
      ensures version != 1 && !(m[0] == VERSION_MARK && m[1] == 2) ==> ok
      ensures ok ==> (clientSupportsCompression <==> flags & 2 != 0) && (supportMsgChannel <==> flags & 4 != 0)
    {
      hide PeekN32, PeekN16, Crc32.Crc;
      SetFields(m);
      flags := m[12];
      ok := CrcHolds(m);
      if ok { clientSupportsCompression, supportMsgChannel := flags & 2 != 0, flags & 4 != 0; }
    }

    /** Reads the header off the wire, into a buffer of zeros, and says where the
        payload starts. */
    method ReceiveHeader(wire: Bytes) returns (v: Verdict, start: nat, size: nat, flags: bv8)
      requires Headed(wire)
      modifies this
      ensures v == Judge(wire) && start == Start(wire)
      ensures v == HeaderOk ==> version == wire[1] && flags == wire[12] && size == PeekN32(wire, 8) as int
      ensures v == HeaderOk ==> commandId == PeekN16(wire, 2) as bv32 && id == PeekN32(wire, 4)
      ensures v == HeaderOk ==> payloadType == wire[13] as bv32
      ensures v == HeaderOk ==>
                (clientSupportsCompression <==> wire[12] & 2 != 0) && (supportMsgChannel <==> wire[12] & 4 != 0)
    {
      hide PeekN32, PeekN16, Crc32.Crc;
      version := wire[1];
      size, flags := 0, 0;
      var msgbuffer;
      msgbuffer, start := FillBuffer(wire);
      if start == 20 && (wire[0] != VERSION_MARK || version != 1) {
        return InvalidProtocolVersion, start, size, flags;
      }
      SamePeeks(wire, msgbuffer, start);
      var ok;
      flags, ok := ReadFromPacketHeader(msgbuffer);
      size := PayloadLength(PeekN32(wire, 8));
      return if ok then HeaderOk else InvalidPacket, start, size, flags;
    }

    /** Twenty bytes of header in a buffer of zeros, and four more for version 2. */
    method FillBuffer(wire: Bytes) returns (msgbuffer: Bytes, start: nat)
      requires Headed(wire)
      ensures |msgbuffer| == 24 && start == Start(wire) && msgbuffer[..start] == wire[..start]
    {
      msgbuffer, start := wire[..20] + [0, 0, 0, 0], 20;
      if wire[0] == VERSION_MARK && wire[1] == 2 { msgbuffer, start := wire[..24], 24; }
    }

    method PayloadLength(ghost announced: bv32) returns (size: nat)
      requires payloadSize == announced as bv64
      ensures size == announced as int
    {
      SameSize(announced);
      return payloadSize as int;
    }

    /** What waiting for a message does with the bytes that arrive. */
    method Receive(wire: Bytes) returns (r: Arrival)
      requires Headed(wire)
      requires Judge(wire) == HeaderOk ==> |wire| >= Start(wire) + PeekN32(wire, 8) as int
      modifies this
      ensures Judge(wire) != HeaderOk ==> r == Refused(Judge(wire))
      ensures Judge(wire) == HeaderOk ==> r == Unpacked(wire)
      ensures r.Arrived? ==> commandId == PeekN16(wire, 2) as bv32 && id == PeekN32(wire, 4)
      ensures r.Arrived? ==> payloadType == wire[13] as bv32 && version == wire[1]
      ensures r.Arrived? ==>
                (clientSupportsCompression <==> wire[12] & 2 != 0) && (supportMsgChannel <==> wire[12] & 4 != 0)
    {
      hide *;
      var v, start, size, flags := ReceiveHeader(wire);
      if v != HeaderOk { return Refused(v); }
      JudgedVersion(wire);
      UnpackedIs(wire);
      r := ReceivePayload(wire, start, size, flags);
    }

    method ReceivePayload(wire: Bytes, start: nat, size: nat, flags: bv8) returns (r: Arrival)
      requires |wire| >= start + size && start >= 20 && (version == 1 || version == 2)
      ensures r == Opened(wire, wire[start..start + size], version, flags)
    {
      hide PeekN32, Crc32.Crc;
      if size != 0 {
        var buffer := wire[start..start + size];
        if version > 1 {
          var crc := Crc32.Compute(buffer);
          if PeekN32(wire, 16) != crc { return InvalidPayload; }
        }
        return Arrived(buffer, flags & 1 != 0);
      }
      return Arrived([], false);
    }
  }

  /** Where the payload starts: version 1 has no CRC behind byte 20. */
  function Start(wire: Bytes): nat
    requires Headed(wire)
  {
    if wire[0] == VERSION_MARK && wire[1] == 2 then 24 else 20
  }

  function Opened(wire: Bytes, payload: Bytes, version: bv8, flags: bv8): Arrival
    requires |wire| >= 20
  {
    if payload == [] then Arrived([], false)
    else if version == 2 && PeekN32(wire, 16) != Crc32.Crc(payload) then InvalidPayload
    else Arrived(payload, flags & 1 != 0)
  }

  /** The message behind a good header. */
  function Unpacked(wire: Bytes): Arrival
    requires Headed(wire) && |wire| >= Start(wire) + PeekN32(wire, 8) as int
  {
    Opened(wire, wire[Start(wire)..Start(wire) + PeekN32(wire, 8) as int], wire[1], wire[12])
  }

  lemma UnpackedIs(wire: Bytes)
    requires Headed(wire) && |wire| >= Start(wire) + PeekN32(wire, 8) as int
    ensures Start(wire) >= 20
    ensures Unpacked(wire) ==
            Opened(wire, wire[Start(wire)..Start(wire) + PeekN32(wire, 8) as int], wire[1], wire[12])
  {
  }

  lemma NoSize(size: bv64)
    ensures size == 0 <==> size as int == 0
  {
  }

  lemma JudgedVersion(wire: Bytes)
    requires Headed(wire) && Judge(wire) == HeaderOk
    ensures wire[1] == 2 || wire[1] == 1
  {
  }

  lemma SentHeader(f: Fields, payload: Bytes)
    ensures
      var wire := Header(f) + payload;
      && Judge(wire) == HeaderOk && PeekN32(wire, 8) == f.size && PeekN32(wire, 16) == f.check
      && wire[0] == VERSION_MARK && wire[1] == 2 && wire[12] == f.flags
  {
    hide PeekN32, Header, Crc32.Crc, PeekN16;
    RoundTrip(f);
    Slices(f);
    JudgePrefix(Header(f), payload);
  }

  lemma JudgePrefix(m: Bytes, more: Bytes)
    requires |m| == 24
    ensures Judge(m + more) == Judge(m) && FieldsOf(m + more) == FieldsOf(m)
  {
    hide Crc32.Crc, PeekN32, PeekN16;
    var n := m + more;
    assert n[..20] == m[..20] && n[..16] == m[..16];
    SamePeek(m, n, 2);
    SamePeek(m, n, 4);
    SamePeek(m, n, 8);
    SamePeek(m, n, 14);
    SamePeek(m, n, 16);
    SamePeek(m, n, 20);
  }

  /** The first bytes of a message decide what is read from them. */
  lemma SamePeeks(m: Bytes, n: Bytes, size: nat)
    requires size in {20, 24} && |m| >= size && |n| >= size && m[..size] == n[..size]
    ensures m[..20] == n[..20] && m[..16] == n[..16] && m[12] == n[12] && m[13] == n[13]
    ensures PeekN16(m, 2) == PeekN16(n, 2) && PeekN32(m, 4) == PeekN32(n, 4)
    ensures PeekN32(m, 8) == PeekN32(n, 8) && PeekN32(m, 16) == PeekN32(n, 16)
    ensures size >= 24 ==> PeekN32(m, 20) == PeekN32(n, 20)
  {
    hide PeekN32, PeekN16;
    forall at | at in {2, 4, 8, 16, size - 4}
      ensures PeekN32(m, at) == PeekN32(n, at) && PeekN16(m, at) == PeekN16(n, at)
    {
      SamePeek(m[..size], m, at);
      SamePeek(m[..size], n, at);
    }
    assert m[..size][..20] == m[..20] && n[..size][..20] == n[..20];
    assert m[..20][..16] == m[..16] && n[..20][..16] == n[..16];
    assert m[..20][12] == m[12] && n[..20][12] == n[12] && m[..20][13] == m[13] && n[..20][13] == n[13];
  }

  lemma SamePeek(m: Bytes, n: Bytes, at: nat)
    requires at + 4 <= |m| <= |n| && n[..|m|] == m
    ensures PeekN32(m, at) == PeekN32(n, at) && PeekN16(m, at) == PeekN16(n, at)
  {
    hide Joined16, Joined32;
    var front := n[..|m|];
    assert n[at] == front[at] && n[at + 1] == front[at + 1] && n[at + 2] == front[at + 2] && n[at + 3] == front[at + 3];
  }

  lemma UnpackedSent(f: Fields, payload: Bytes)
    requires f.size as int == |payload|
    ensures
      var wire := Header(f) + payload;
      && Judge(wire) == HeaderOk && PeekN32(wire, 8) == f.size && PeekN32(wire, 16) == f.check
      && Unpacked(wire) == Opened(wire, payload, 2, f.flags)
  {
    hide PeekN32, Header, Crc32.Crc, Judge, Opened, Unpacked, Be16, Be32, Front, Check;
    SentHeader(f, payload);
    var wire := Header(f) + payload;
    assert |wire| == 24 + |payload| && wire[24..24 + |payload|] == payload;
    UnpackedIs(wire);
  }

  /** What was sent arrives, with the very payload. */
  lemma SentArrives(f: Fields, payload: Bytes)
    requires f.size as int == |payload| && f.check == Check(payload)
    ensures
      var wire := Header(f) + payload;
      && Judge(wire) == HeaderOk && PeekN32(wire, 8) == f.size
      && Unpacked(wire) == Arrived(payload, payload != [] && f.flags & 1 != 0)
  {
    hide PeekN32, Header, Crc32.Crc, Judge, Unpacked;
    UnpackedSent(f, payload);
  }

  /** A payload changed within four consecutive bytes is refused. */
  lemma PayloadChangeRefused(f: Fields, front: Bytes, x: Bytes, y: Bytes, back: Bytes)
    requires f.size as int == |front| + |x| + |back| && f.check == Check(front + x + back)
    requires |x| == |y| <= 4 && x != y
    ensures
      var wire := Header(f) + (front + y + back);
      && Judge(wire) == HeaderOk && PeekN32(wire, 8) == f.size && Unpacked(wire) == InvalidPayload
  {
    hide PeekN32, Header, Crc32.Crc, Judge, Unpacked, Opened, Check;
    UnpackedSent(f, front + y + back);
    OpenedChanged(Header(f) + (front + y + back), f.flags, front, x, y, back);
  }

  lemma OpenedChanged(wire: Bytes, flags: bv8, front: Bytes, x: Bytes, y: Bytes, back: Bytes)
    requires |wire| >= 20 && PeekN32(wire, 16) == Check(front + x + back)
    requires |x| == |y| <= 4 && x != y
    ensures Opened(wire, front + y + back, 2, flags) == InvalidPayload
  {
    hide PeekN32, Crc32.Crc;
    Crc32.ChangeDetected(front, x, y, back);
    assert front + x + back != [] && front + y + back != [];
  }

  lemma SameSize(x: bv32)
    ensures (x as bv64) as int == x as int && ((x as bv64) == 0 <==> x as int == 0)
  {
  }

  method Blank(buffer: array<bv8>)
    requires buffer.Length >= 24
    modifies buffer
    ensures buffer[24..] == old(buffer[24..]) && forall k | 0 <= k < 24 :: buffer[k] == 0
  {
    forall k | 0 <= k < 24 { buffer[k] := 0; }
  }

  /** Bytes 0 to 7: mark, version, command and id. */
  method PokeStart(buffer: array<bv8>, command: bv16, id: bv32)
    requires buffer.Length >= 24
    modifies buffer
    ensures buffer[..8] == [VERSION_MARK, 2] + Be16(command) + Be32(id)
    ensures buffer[24..] == old(buffer[24..])
  {
    hide Be16, Be32;
    PokeN8(buffer, 0, VERSION_MARK);
    PokeN8(buffer, 1, 2);
    PokeN16(buffer, 2, command);
    PokeN32(buffer, 4, id);
  }

  /** Bytes 8 to 19: size, flags, type, a random number and the payload's CRC. */
  method PokeRest(buffer: array<bv8>, size: bv32, flags: bv8, kind: bv8, random: bv16, check: bv32)
    requires buffer.Length >= 24
    modifies buffer
    ensures buffer[..20] == old(buffer[..8]) + (Be32(size) + [flags, kind] + Be16(random)) + Be32(check)
    ensures buffer[24..] == old(buffer[24..])
  {
    hide Be16, Be32;
    ghost var lead := buffer[..8];
    PokeN32(buffer, 8, size);
    PokeN8(buffer, 12, flags);
    PokeN8(buffer, 13, kind);
    PokeN16(buffer, 14, random);
    assert buffer[..16] == lead + (Be32(size) + [flags, kind] + Be16(random));
    PokeN32(buffer, 16, check);
  }

  /** The CRC over the first twenty bytes goes behind them. */
  method Seal(buffer: array<bv8>)
    requires buffer.Length >= 24
    modifies buffer
    ensures buffer[..24] == old(buffer[..20]) + Be32(Crc32.Crc(old(buffer[..20])))
    ensures buffer[24..] == old(buffer[24..])
  {
    hide Be32, Crc32.Crc;
    var crc := Crc32.Compute(buffer[..20]);
    PokeN32(buffer, 20, crc);
  }

  lemma FrontOf(f: Fields, m: Bytes)
    requires |m| == 20
    requires m == [VERSION_MARK, 2] + Be16(f.command) + Be32(f.id)
                  + (Be32(f.size) + [f.flags, f.kind] + Be16(f.random)) + Be32(f.check)
    ensures m == Front(f)
  {
    hide Be16, Be32;
    var (a, b, c) := ([VERSION_MARK, 2] + Be16(f.command) + Be32(f.id), Be32(f.size) + [f.flags, f.kind], Be16(f.random));
    assert a + (b + c) == a + Be32(f.size) + [f.flags, f.kind] + c;
  }

  lemma HeaderOf(f: Fields)
    ensures Header(f) == Front(f) + Be32(Crc32.Crc(Front(f)))
  {
  }

  method PokeN8(buffer: array<bv8>, at: nat, x: bv8)
    requires at + 1 <= buffer.Length
    modifies buffer
    ensures buffer[..at + 1] == old(buffer[..at]) + [x]
    ensures forall k | at + 1 <= k < buffer.Length :: buffer[k] == old(buffer[k])
  {
    buffer[at] := x;
  }

  method PokeN16(buffer: array<bv8>, at: nat, x: bv16)
    requires at + 2 <= buffer.Length
    modifies buffer
    ensures buffer[..at + 2] == old(buffer[..at]) + Be16(x)
    ensures forall k | at + 2 <= k < buffer.Length :: buffer[k] == old(buffer[k])
  {
    buffer[at + 1] := (x & 255) as bv8;
    buffer[at] := ((x >> 8) & 255) as bv8;
  }

  method PokeN32(buffer: array<bv8>, at: nat, x: bv32)
    requires at + 4 <= buffer.Length
    modifies buffer
    ensures buffer[..at + 4] == old(buffer[..at]) + Be32(x)
    ensures forall k | at + 4 <= k < buffer.Length :: buffer[k] == old(buffer[k])
  {
    buffer[at + 3] := (x & 255) as bv8;
    buffer[at + 2] := ((x >> 8) & 255) as bv8;
    buffer[at + 1] := ((x >> 16) & 255) as bv8;
    buffer[at] := ((x >> 24) & 255) as bv8;
  }

  lemma SmallSize(x: bv64)
    requires x < 0x1_0000_0000
    ensures ((x & 0xFFFF_FFFF) as bv32) as int == x as int
  {
    var y := (x & 0xFFFF_FFFF) as bv32;
    LowHalf(x);
    SameSize(y);
  }

  lemma LowHalf(x: bv64)
    requires x < 0x1_0000_0000
    ensures ((x & 0xFFFF_FFFF) as bv32) as bv64 == x
  {
  }

  lemma SaysWhat(m: SocketMessage, size: bv64, compressed: bool, random: bv16, check: bv32)
    ensures var f := m.Says(size, compressed, random, check);
            f.command as bv32 == m.commandId & 0xFFFF && f.kind as bv32 == m.payloadType & 0xFF
  {
    hide m.Flags;
    LowWord(m.commandId);
    LowByteOf(m.payloadType);
    SaysParts(m, size, compressed, random, check);
    hide m.Says;
  }

  lemma SaysParts(m: SocketMessage, size: bv64, compressed: bool, random: bv16, check: bv32)
    ensures
      var f := m.Says(size, compressed, random, check);
      && f.command == (m.commandId & 0xFFFF) as bv16 && f.kind == (m.payloadType & 0xFF) as bv8
      && f.id == m.id && f.size == (size & 0xFFFF_FFFF) as bv32 && f.check == check && f.flags == m.Flags(compressed)
  {
    hide m.Flags;
  }

  lemma LowWord(x: bv32)
    ensures ((x & 0xFFFF) as bv16) as bv32 == x & 0xFFFF
  {
  }

  lemma LowByteOf(x: bv32)
    ensures ((x & 0xFF) as bv8) as bv32 == x & 0xFF
  {
  }

  lemma WireFields(f: Fields, payload: Bytes)
    ensures
      var wire := Header(f) + payload;
      && Headed(wire) && wire[1] == 2 && wire[12] == f.flags && wire[13] == f.kind && Start(wire) == 24
      && PeekN16(wire, 2) == f.command && PeekN32(wire, 4) == f.id
  {
    hide PeekN16, PeekN32, Header;
    Slices(f);
    RoundTrip(f);
    JudgePrefix(Header(f), payload);
  }

  /** What the receiver finds in the bytes that a message's header sends. */
  lemma Understood(m: SocketMessage, payload: Bytes, size: bv64, compressed: bool, random: bv16)
    requires size as int == |payload| && size < 0x1_0000_0000
    ensures
      var f := m.Says(size, compressed, random, Check(payload));
      var wire := Header(f) + payload;
      && Headed(wire) && Judge(wire) == HeaderOk && |wire| >= Start(wire) + PeekN32(wire, 8) as int
      && Unpacked(wire) == Arrived(payload, payload != [] && compressed)
      && Offers(wire, m) && |wire| >= 24
  {
    var f := m.Says(size, compressed, random, Check(payload));
    SmallSize(size);
    SaysParts(m, size, compressed, random, Check(payload));
    SaysWhat(m, size, compressed, random, Check(payload));
    m.FlagBits(compressed);
    SentArrives(f, payload);
    WireFields(f, payload);
    hide m.Says, m.Flags, Judge, Unpacked, Start, PeekN16, PeekN32, Header, Crc32.Crc, Check;
  }

  /** What one side has sent the other has received. */
  method SendAndReceive(sender: SocketMessage, receiver: SocketMessage, payload: Bytes, size: bv64,
                        compressed: bool, random: bv16) returns (r: Arrival)
    requires sender != receiver && size as int == |payload| && size < 0x1_0000_0000
    modifies receiver
    ensures r == Arrived(payload, payload != [] && compressed) && Learned(receiver, sender)
  {
    var wire := Send(sender, payload, size, compressed, random);
    Understood(sender, payload, size, compressed, random);
    hide *;
    r := Take(receiver, wire);
    TookOffer(receiver, sender, wire);
  }

  /** The low 16 bits of the command, the id, the low byte of the type, and what the
      sender can do. */
  ghost predicate Learned(receiver: SocketMessage, sender: SocketMessage)
    reads receiver, sender
  {
    && receiver.commandId == sender.commandId & 0xFFFF && receiver.id == sender.id
    && receiver.payloadType == sender.payloadType & 0xFF
    && receiver.clientSupportsCompression == sender.useCompression
    && receiver.supportMsgChannel == sender.supportMsgChannel && receiver.version == 2
  }

  /** What these bytes say is what the sender would say. */
  ghost predicate Offers(wire: Bytes, sender: SocketMessage)
    reads sender
  {
    && |wire| >= 24 && wire[1] == 2
    && PeekN16(wire, 2) as bv32 == sender.commandId & 0xFFFF && PeekN32(wire, 4) == sender.id
    && wire[13] as bv32 == sender.payloadType & 0xFF
    && (wire[12] & 2 != 0 <==> sender.useCompression) && (wire[12] & 4 != 0 <==> sender.supportMsgChannel)
  }

  ghost predicate Took(receiver: SocketMessage, wire: Bytes)
    requires |wire| >= 24
    reads receiver
  {
    && receiver.commandId == PeekN16(wire, 2) as bv32 && receiver.id == PeekN32(wire, 4)
    && receiver.payloadType == wire[13] as bv32 && receiver.version == wire[1]
    && (receiver.clientSupportsCompression <==> wire[12] & 2 != 0)
    && (receiver.supportMsgChannel <==> wire[12] & 4 != 0)
  }

  lemma TookOffer(receiver: SocketMessage, sender: SocketMessage, wire: Bytes)
    requires Offers(wire, sender) && |wire| >= 24 && Took(receiver, wire)
    ensures Learned(receiver, sender)
  {
    hide PeekN16, PeekN32;
  }

  method Take(receiver: SocketMessage, wire: Bytes) returns (r: Arrival)
    requires |wire| >= 24 && Headed(wire) && Judge(wire) == HeaderOk
    requires |wire| >= Start(wire) + PeekN32(wire, 8) as int && Unpacked(wire).Arrived?
    modifies receiver
    ensures r == Unpacked(wire) && Took(receiver, wire)
  {
    hide PeekN16, PeekN32, Judge, Start, Unpacked;
    r := receiver.Receive(wire);
  }

  /** The bytes that go out: the header, and the payload behind it. */
  method Send(sender: SocketMessage, payload: Bytes, size: bv64, compressed: bool, random: bv16) returns (wire: Bytes)
    requires size as int == |payload|
    ensures wire == Header(sender.Says(size, compressed, random, Check(payload))) + payload
  {
    hide *;
    var header := new bv8[24];
    var ok := sender.CompilePacketHeader(header, 24, payload, size, compressed, random);
    assert header[..] == header[..24];
    wire := header[..] + payload;
  }
}
