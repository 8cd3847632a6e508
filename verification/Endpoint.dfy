/** The endpoint record a node publishes: an optional IPv4 and an optional IPv6 socket address. */
module Endpoint {
  import opened Wrappers
  import opened Bits

  const FLAG_V4: Byte := 1
  const FLAG_V6: Byte := 2

  type Port = n: nat | n < 0x1_0000

  datatype SocketV4 = SocketV4(ip: seq<Byte>, port: Port)
  datatype SocketV6 = SocketV6(ip: seq<Byte>, port: Port, flowInfo: nat, scopeId: nat)

  datatype Record = Record(v4: Option<SocketV4>, v6: Option<SocketV6>)
  {
    predicate Valid() { (v4.Some? ==> |v4.value.ip| == 4) && (v6.Some? ==> |v6.value.ip| == 16) }
    predicate IsEmpty() { v4.None? && v6.None? }
  }

  /** A record carries at least one endpoint. */
  function New(v4: Option<SocketV4>, v6: Option<SocketV6>): Option<Record> {
    if v4.Some? || v6.Some? then Some(Record(v4, v6)) else None
  }

  function BigEndian16(n: Port): seq<Byte> { [n / 256, n % 256] }

  function PortOf(high: nat, low: nat): Port
    requires high < 256 && low < 256
  {
    high * 256 + low
  }

  method ToBytes(r: Record) returns (out: seq<Byte>)
    requires r.Valid()
    ensures out == Encoded(r)
  {
    var flags := 0;
    FlagBits();
    if r.v4.Some? {
      flags := BitOr(flags, FLAG_V4);
    }
    if r.v6.Some? {
      flags := BitOr(flags, FLAG_V6);
    }
    out := [flags];
    if r.v4.Some? {
      out := out + r.v4.value.ip;
      out := out + BigEndian16(r.v4.value.port);
    }
    if r.v6.Some? {
      out := out + r.v6.value.ip;
      out := out + BigEndian16(r.v6.value.port);
    }
  }

  lemma FlagBits()
    ensures BitOr(0, 1) == 1 && BitOr(0, 2) == 2 && BitOr(1, 2) == 3
  {
    OrWithZero(1);
    OrWithZero(2);
    assert BitOr(0, 1) == 1;
  }

  function BlockV4(v: Option<SocketV4>): seq<Byte> {
    if v.Some? then v.value.ip + BigEndian16(v.value.port) else []
  }

  function BlockV6(v: Option<SocketV6>): seq<Byte> {
    if v.Some? then v.value.ip + BigEndian16(v.value.port) else []
  }

  function Encoded(r: Record): seq<Byte> {
    [(if r.v4.Some? then FLAG_V4 else 0) + (if r.v6.Some? then FLAG_V6 else 0)] + BlockV4(r.v4) + BlockV6(r.v6)
  }

  /** Decode strictly: unknown flags, a truncated block, trailing bytes and an empty record are refused. */
  method FromBytes(bytes: seq<Byte>) returns (r: Option<Record>)
    ensures r == Decoded(bytes)
  {
    if bytes == [] {
      return None;
    }
    var flags, rest := bytes[0], bytes[1..];
    FlagTests(flags);
    if BitAnd(flags, 0xfc) != 0 {
      return None;
    }
    var v4: Option<SocketV4> := None;
    var v6: Option<SocketV6> := None;
    if BitAnd(flags, FLAG_V4) != 0 {
      if |rest| < 6 {
        return None;
      }
      v4 := Some(SocketV4(rest[..4], PortOf(rest[4], rest[5])));
      rest := rest[6..];
    }
    if BitAnd(flags, FLAG_V6) != 0 {
      if |rest| < 18 {
        return None;
      }
      v6 := Some(SocketV6(rest[..16], PortOf(rest[16], rest[17]), 0, 0));
      rest := rest[18..];
    }
    if rest != [] {
      return None;
    }
    r := New(v4, v6);
  }

  function Decoded(bytes: seq<Byte>): Option<Record> {
    if bytes == [] || bytes[0] > 3 then None else
      var flags := bytes[0];
      var rest := bytes[1..];
      var has4, has6 := flags % 2 == 1, flags >= 2;
      if has4 && |rest| < 6 then None else
        var v4 := if has4 then Some(SocketV4(rest[..4], PortOf(rest[4], rest[5]))) else None;
        var tail := if has4 then rest[6..] else rest;
        if has6 && |tail| < 18 then None else
          var v6 := if has6 then Some(SocketV6(tail[..16], PortOf(tail[16], tail[17]), 0, 0)) else None;
          if |tail| > (if has6 then 18 else 0) then None else New(v4, v6)
  }

  lemma FlagTests(flags: Byte)
    ensures BitAnd(flags, 0xfc) != 0 <==> flags > 3
    ensures flags <= 3 ==> (BitAnd(flags, FLAG_V4) != 0 <==> flags % 2 == 1)
    ensures flags <= 3 ==> (BitAnd(flags, FLAG_V6) != 0 <==> flags >= 2)
  {
    assert BitAnd(flags, 0xfc) == 2 * BitAnd(flags / 2, 0x7e);
    assert BitAnd(flags / 2, 0x7e) == 2 * BitAnd(flags / 2 / 2, 0x3f);
    MaskIsLow(flags / 2 / 2, 6);
    assert Pow2(3) == 8;
    assert Shl(8, 3) == 64;
    ShlTwice(1, 3, 3);
    LowOfSmall(flags / 2 / 2, 6);
    if flags <= 3 {
      MaskIsLow(flags, 1);
      assert Low(flags, 1) == flags % 2 + 2 * Low(flags / 2, 0);
      assert BitAnd(flags, 2) == 2 * BitAnd(flags / 2, 1);
      MaskIsLow(flags / 2, 1);
      assert Low(flags / 2, 1) == flags / 2 % 2 + 2 * Low(flags / 2 / 2, 0);
    }
  }

  function PortAt(bytes: seq<Byte>, i: nat): nat
    requires i + 1 < |bytes|
  {
    var high: nat, low: nat := bytes[i], bytes[i + 1];
    256 * high + low
  }

  /** The bytes of a record: the flags, the IPv4 block, the IPv6 block; in each the address, then the port. */
  ghost predicate IsLaidOut(r: Record, bytes: seq<Byte>) {
    var n := if r.v4.Some? then 7 else 1;
    && |bytes| == n + (if r.v6.Some? then 18 else 0)
    && bytes[0] == (if r.v4.Some? then 1 else 0) + (if r.v6.Some? then 2 else 0)
    && (r.v4.Some? ==> bytes[1..5] == r.v4.value.ip && PortAt(bytes, 5) == r.v4.value.port)
    && (r.v6.Some? ==> bytes[n..n + 16] == r.v6.value.ip && PortAt(bytes, n + 16) == r.v6.value.port)
  }

  lemma EncodedIsLaidOut(r: Record)
    requires r.Valid()
    ensures IsLaidOut(r, Encoded(r))
  {
    var bytes := Encoded(r);
    var n := if r.v4.Some? then 7 else 1;
    assert bytes[1..n] == BlockV4(r.v4) && bytes[n..] == BlockV6(r.v6);
    if r.v4.Some? {
      assert bytes[1..5] == bytes[1..n][..4] && bytes[5] == bytes[1..n][4] && bytes[6] == bytes[1..n][5];
    }
    if r.v6.Some? {
      assert bytes[n..n + 16] == bytes[n..][..16];
      assert bytes[n + 16] == bytes[n..][16] && bytes[n + 17] == bytes[n..][17];
    }
  }

  /** Bytes are accepted if and only if their flags are 1, 2 or 3 and they are as long as those flags say. */
  lemma DecodedWhen(bytes: seq<Byte>)
    ensures Decoded(bytes).Some?
       <==> bytes != [] && ((bytes[0] == 1 && |bytes| == 7) || (bytes[0] == 2 && |bytes| == 19)
                            || (bytes[0] == 3 && |bytes| == 25))
    ensures Decoded(bytes).Some? ==> IsLaidOut(Decoded(bytes).value, bytes)
  {
    if Decoded(bytes).Some? {
      DecodedThenEncoded(bytes);
      EncodedIsLaidOut(Decoded(bytes).value);
    }
  }

  /** Decoding what was encoded gives the record back if and only if it has an endpoint and no IPv6 extras. */
  lemma EncodedThenDecoded(r: Record)
    requires r.Valid()
    ensures |Encoded(r)| <= 25
    ensures Decoded(Encoded(r)) == Some(r)
       <==> !r.IsEmpty() && (r.v6.Some? ==> r.v6.value.flowInfo == 0 && r.v6.value.scopeId == 0)
  {
    var bytes := Encoded(r);
    var rest := bytes[1..];
    assert rest == BlockV4(r.v4) + BlockV6(r.v6);
    if r.v4.Some? {
      assert rest[..4] == r.v4.value.ip && rest[6..] == BlockV6(r.v6);
    }
    var tail := if r.v4.Some? then rest[6..] else rest;
    assert tail == BlockV6(r.v6);
    if r.v6.Some? {
      assert tail[..16] == r.v6.value.ip;
    }
  }

  /** Reading an address and a port and writing them gives the same bytes. */
  lemma BlockIs(block: seq<Byte>, ip: nat)
    requires |block| == ip + 2
    ensures block[..ip] + BigEndian16(PortOf(block[ip], block[ip + 1])) == block
  {
  }

  /** Only the encoding of a record decodes to it. */
  lemma DecodedThenEncoded(bytes: seq<Byte>)
    requires Decoded(bytes).Some?
    ensures var r := Decoded(bytes).value; r.Valid() && !r.IsEmpty() && Encoded(r) == bytes
  {
    var r := Decoded(bytes).value;
    var n := 1 + if r.v4.Some? then 6 else 0;
    var block4, block6 := bytes[1..n], bytes[n..];
    assert bytes == [bytes[0]] + block4 + block6;
    if r.v4.Some? {
      assert bytes[1..][..4] == block4[..4] && bytes[1..][6..] == block6;
      BlockIs(block4, 4);
    } else {
      assert bytes[1..] == block6;
    }
    if r.v6.Some? {
      BlockIs(block6, 16);
    }
    assert BlockV4(r.v4) == block4 && BlockV6(r.v6) == block6;
  }
}
