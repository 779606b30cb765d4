/** The two ends of an SD transfer: the boot device as the host sees it over USB, and the file on the host. */
module SdDevice {
  import Bits

  const BLOCK := 512
  const CHUNK_BLOCKS := 1024
  const CHUNK := 524288

  type u16 = x: int | 0 <= x < 0x1_0000
  type u32 = Bits.u32
  type byte = x: int | 0 <= x < 256

  datatype CardOp = CardProgram | CardRead

  function Min(a: nat, b: nat): nat {
    if a <= b then a else b
  }

  /** Two card images of one size that agree outside the bytes lo up to hi. */
  predicate SameOutside(before: seq<byte>, after: seq<byte>, lo: nat, hi: nat)
    requires lo <= hi
  {
    && |after| == |before|
    && after[..Min(lo, |after|)] == before[..Min(lo, |before|)]
    && after[Min(hi, |after|)..] == before[Min(hi, |before|)..]
  }

  /** The firmware is not at hand: the methods below state what the host relies on. A step may fail, leaving the
      register or buffer it writes in any state; `reliable` devices never fail a step that they can carry out.
      CARD_PROGRAM confines itself to the addressed blocks; `faithful` devices store exactly the bulk data
      there. CARD_READ always delivers what the card holds. */
  class Device {
    const reliable: bool
    const faithful: bool
    var addr: u32
    var len: u32
    var bulk: seq<byte>
    var card: seq<byte>
    /** Handshakes received so far. */
    ghost var handshakes: nat

    constructor (reliable: bool, faithful: bool, card: seq<byte>)
      ensures this.reliable == reliable && this.faithful == faithful && this.card == card
    {
      this.reliable, this.faithful, this.card := reliable, faithful, card;
      this.addr, this.len, this.bulk := 0, 0, [];
    }

    /** A 32-bit argument travels as two 16-bit halves of a control message. */
    method SetAddress(msb: u16, lsb: u16) returns (ok: bool)
      modifies `addr
      ensures ok ==> addr == 0x1_0000 * msb + lsb
      ensures reliable ==> ok
    {
      ok := *;
      ok := ok || reliable;
      addr := *;
      if ok { addr := 0x1_0000 * msb + lsb; }
    }

    method SetLength(msb: u16, lsb: u16) returns (ok: bool)
      modifies `len
      ensures ok ==> len == 0x1_0000 * msb + lsb
      ensures reliable ==> ok
    {
      ok := *;
      ok := ok || reliable;
      len := *;
      if ok { len := 0x1_0000 * msb + lsb; }
    }

    method BulkWrite(data: seq<byte>) returns (ok: bool)
      modifies `bulk
      ensures ok ==> bulk == data
      ensures reliable ==> ok
    {
      ok := *;
      ok := ok || reliable;
      bulk := *;
      if ok { bulk := data; }
    }

    /** Bytes of the card that the registers address. */
    function Lo(): nat reads this { BLOCK * addr }
    function Hi(): nat reads this { BLOCK * (addr + len) }

    method Operate(op: CardOp) returns (ok: bool)
      modifies `bulk, `card
      ensures op == CardRead ==> card == old(card)
      ensures op == CardRead && ok ==> Hi() <= |card| && bulk == card[Lo()..Hi()]
      ensures op == CardRead && reliable && Hi() <= |card| ==> ok
      ensures op == CardProgram ==> SameOutside(old(card), card, Lo(), Hi())
      ensures op == CardProgram && ok && faithful && |old(bulk)| == BLOCK * len ==>
                Hi() <= |card| && card[Lo()..Hi()] == old(bulk)
      ensures op == CardProgram && reliable && Hi() <= |card| && |old(bulk)| == BLOCK * len ==> ok
    {
      var coin: bool := *;
      if op == CardRead {
        ok := Hi() <= |card| && (coin || reliable);
        bulk := *;
        if ok { bulk := card[Lo()..Hi()]; }
      } else {
        var lo, hi := Min(Lo(), |card|), Min(Hi(), |card|);
        var sound := Hi() <= |card| && |bulk| == BLOCK * len;
        ok := (coin || reliable) && (sound || !faithful);
        assert |card[lo..hi]| == hi - lo;
        var stored: seq<byte> :| |stored| == hi - lo;
        if ok && faithful { stored := bulk; }
        card := card[..lo] + stored + card[hi..];
      }
    }

    /** The eight bytes that end a write; their value is not looked at. */
    method Handshake() returns (ok: bool)
      modifies `handshakes
      ensures reliable ==> ok
      ensures handshakes == old(handshakes) + if ok then 1 else 0
    {
      ok := *;
      ok := ok || reliable;
      if ok {
        handshakes := handshakes + 1;
      }
    }

    method BulkRead(n: nat) returns (ok: bool, data: seq<byte>)
      ensures ok ==> |data| == n && (|bulk| == n ==> data == bulk)
      ensures reliable && |bulk| == n ==> ok
    {
      ok := *;
      ok := ok || reliable;
      data := if |bulk| >= n then bulk[..n] else bulk;
      ok := ok && |data| == n;
    }
  }

  /** A regular file opened for reading. `steady` hosts never fail a call and never cut a read short. */
  class HostFile {
    const steady: bool
    const data: seq<byte>
    var pos: nat

    constructor (steady: bool, data: seq<byte>)
      ensures this.steady == steady && this.data == data && pos == 0
    {
      this.steady, this.data, this.pos := steady, data, 0;
    }

    method Read(buf: array<byte>, n: nat) returns (got: nat)
      requires pos <= |data| && n <= buf.Length
      modifies this, buf
      ensures got <= Min(n, |data| - old(pos)) && pos == old(pos) + got
      ensures buf[..] == data[old(pos)..pos] + old(buf[..])[got..]
      ensures steady ==> got == Min(n, |data| - old(pos))
    {
      var most := Min(n, |data| - pos);
      got :| 0 <= got <= most;
      if steady { got := most; }
      forall k | 0 <= k < got {
        buf[k] := data[pos + k];
      }
      pos := pos + got;
      assert forall k | got <= k < buf.Length :: buf[k] == old(buf[..])[k];
    }
  }
}
