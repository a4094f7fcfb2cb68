/**
 IPsec in transport mode: what goes on the wire for a packet, what the receiver makes of
 it, and that the receiver restores the packet.  The cipher, the keyed hash and the IPv4
 checksum are parameters.
 */
module Ipsec {
  import opened Options
  import W = Words

  type byte = x: int | 0 <= x < 256

  const IPV4_HDR_LEN: nat := 20
  const AH_HDR_LEN: nat := 12
  const ESP_HDR_LEN: nat := 8
  const ESP_TRL_LEN: nat := 2
  const PROTO_IPV4: byte := 4
  const PROTO_ESP: byte := 0x32
  const PROTO_AH: byte := 0x33

  datatype Header = Header(tos: byte, totLen: nat, id: nat, frag: nat, ttl: byte, proto: byte, chksum: nat, src: nat,
                           dst: nat)

  // Security parameter indices are kept as their four bytes in network order.
  datatype Ah = Ah(spi: seq<byte>, icvLen: nat)
  datatype Esp = Esp(spi: seq<byte>, blockLen: nat, iv: seq<byte>)

  /** A security association: authentication, encryption or both. */
  datatype Sa = Sa(ah: Option<Ah>, esp: Option<Esp>) {
    function IcvLen(): nat { if ah.Some? then ah.value.icvLen else 0 }
    function IvLen(): nat { if esp.Some? then |esp.value.iv| else 0 }
    function AhLen(): nat { if ah.Some? then AH_HDR_LEN + IcvLen() else 0 }
    function EspLen(): nat { if esp.Some? then ESP_HDR_LEN + IvLen() else 0 }
    function HdrLen(): nat { AhLen() + EspLen() }

    /** The hash is a number of words the AH length byte can hold, the block at most 256 bytes. */
    predicate Valid()
    {
      && (ah.Some? || esp.Some?)
      && (ah.Some? ==> |ah.value.spi| == 4 && WholeWords(ah.value.icvLen) && 1 + Quarter(ah.value.icvLen) < 256)
      && (esp.Some? ==> |esp.value.spi| == 4 && 1 <= esp.value.blockLen <= 256)
    }

    /** Padding and ESP trailer added to n bytes of payload. */
    function TrlLen(n: nat): (t: nat)
      requires Valid()
      ensures esp.Some? ==> ESP_TRL_LEN <= t <= ESP_TRL_LEN + 255
    {
      if esp.Some? then RoundUp(n + ESP_TRL_LEN, esp.value.blockLen) - n else 0
    }
  }

  datatype Crypto = Crypto(enc: (seq<byte>, seq<byte>) -> seq<byte>, dec: (seq<byte>, seq<byte>) -> seq<byte>,
                           mac: (Header, seq<byte>) -> seq<byte>, checksum: Header -> nat)

  /** What is deciphered is what was ciphered, for whole blocks. */
  ghost predicate Inverse(sa: Sa, cr: Crypto, x: seq<byte>)
    requires sa.Valid() && sa.esp.Some?
  {
    |x| % sa.esp.value.blockLen == 0 ==> cr.dec(sa.esp.value.iv, cr.enc(sa.esp.value.iv, x)) == x
  }

  /** What is asked of the algorithms: whole blocks are deciphered, lengths are kept. */
  ghost predicate Lawful(sa: Sa, cr: Crypto)
    requires sa.Valid()
  {
    && (forall iv, x :: |cr.enc(iv, x)| == |x|)
    && (forall iv, x :: |cr.dec(iv, x)| == |x|)
    && (forall h, x :: |cr.mac(h, x)| == sa.IcvLen())
    && (sa.esp.Some? ==> forall x :: Inverse(sa, cr, x))
  }

  /** The laws can be met: by the null cipher and a constant hash. */
  lemma NullIsLawful(sa: Sa)
    requires sa.Valid()
    ensures Lawful(sa, Crypto((iv, x) => x, (iv, x) => x, (h, x) => Zeros(sa.IcvLen()), h => 0))
  {
  }

  // ---------------------------------------------------------------- lengths and words

  /** Whole blocks of b bytes until x bytes are covered. */
  function RoundUp(x: nat, b: nat): (r: nat)
    requires b > 0
    ensures x <= r < x + b
    decreases x
  {
    if x == 0 then 0 else b + RoundUp(if x <= b then 0 else x - b, b)
  }

  function EncodeLen(x: nat, b: nat): nat
    requires b > 0
  {
    ((x + (b - 1)) / b) * b
  }

  /** The length computed by division is that many whole blocks. */
  lemma {:induction false} EncodeLenExact(x: nat, b: nat)
    requires b > 0
    ensures EncodeLen(x, b) == RoundUp(x, b) && RoundUp(x, b) % b == 0
    decreases x
  {
    if x == 0 {
      W.ModUnique(b - 1, b, 0, b - 1);
    } else {
      var y: nat := if x <= b then 0 else x - b;
      EncodeLenExact(y, b);
      EncodeMore(x, y, b);
    }
  }

  /** One block more. */
  lemma EncodeMore(x: nat, y: nat, b: nat)
    requires b > 0 && x > 0 && y == if x <= b then 0 else x - b
    ensures EncodeLen(x, b) == EncodeLen(y, b) + b && EncodeLen(x, b) % b == 0
  {
    var q := (y + (b - 1)) / b;
    W.DivMod(y + (b - 1), b);
    if x <= b {
      W.ModUnique(b - 1, b, 0, b - 1);
      W.ModUnique(x + (b - 1), b, 1, x - 1);
    } else {
      assert x + (b - 1) == (q + 1) * b + (y + (b - 1)) % b;
      W.ModUnique(x + (b - 1), b, q + 1, (y + (b - 1)) % b);
    }
    assert (q + 1) * b == q * b + b;
    W.ModUnique((q + 1) * b, b, q + 1, 0);
  }

  /** A length in whole words of four bytes. */
  function Quarter(x: nat): nat
  {
    if x < 4 then 0 else 1 + Quarter(x - 4)
  }

  predicate WholeWords(x: nat)
  {
    x == 0 || (x >= 4 && WholeWords(x - 4))
  }

  /** It is the quotient of the source, and nothing is left over for whole words. */
  lemma {:induction false} QuarterExact(x: nat)
    ensures Quarter(x) == x / 4 && (WholeWords(x) <==> x % 4 == 0)
  {
    if x < 4 {
    } else {
      QuarterExact(x - 4);
    }
  }

  /** Byte k of a word, counted from the least significant. */
  function Digit(w: nat, k: nat): byte
  {
    if k == 0 then w % 0x100 else Digit(w / 0x100, k - 1)
  }

  /** A word in network byte order. */
  function Be32(w: nat): (r: seq<byte>)
    ensures |r| == 4
  {
    seq(4, i requires 0 <= i < 4 => Digit(w, 3 - i))
  }

  /** The 16-bit length field. */
  function Wrap16(x: nat): nat
  {
    if x < 0x1_0000 then x else Wrap16(x - 0x1_0000)
  }

  lemma {:induction false} Wrap16Is(x: nat)
    ensures Wrap16(x) == x % 0x1_0000
    decreases x
  {
    if x < 0x1_0000 {
    } else {
      Wrap16Is(x - 0x1_0000);
    }
  }

  function Zeros(n: nat): (r: seq<byte>)
    ensures |r| == n
  {
    seq(n, _ => 0)
  }

  function Write(b: seq<byte>, o: nat, x: seq<byte>): (r: seq<byte>)
    requires o + |x| <= |b|
    ensures |r| == |b|
  {
    b[..o] + x + b[o + |x|..]
  }

  // ---------------------------------------------------------------- the wire format

  /** The header as both ends authenticate it: fields a router may change are zero. */
  function Immutable(h: Header): Header
  {
    h.(tos := 0, frag := 0, ttl := 0, chksum := 0)
  }

  function Summed(cr: Crypto, h: Header): Header
  {
    h.(chksum := cr.checksum(h.(chksum := 0)))
  }

  function AhBytes(sa: Sa, next: byte, seqNo: seq<byte>, icv: seq<byte>): (r: seq<byte>)
    requires sa.Valid() && |seqNo| == 4 && |icv| == sa.IcvLen()
    ensures |r| == sa.AhLen()
  {
    if sa.ah.None? then [] else
      [next, 1 + Quarter(sa.ah.value.icvLen), 0, 0] + sa.ah.value.spi + seqNo + icv
  }

  function EspBytes(sa: Sa, seqNo: seq<byte>): (r: seq<byte>)
    requires sa.Valid() && |seqNo| == 4
    ensures |r| == sa.EspLen()
  {
    if sa.esp.None? then [] else sa.esp.value.spi + seqNo + sa.esp.value.iv
  }

  predicate Pads(sa: Sa, payload: seq<byte>, pad: seq<byte>)
    requires sa.Valid()
  {
    |pad| == (if sa.esp.Some? then sa.TrlLen(|payload|) - ESP_TRL_LEN else 0) && |pad| < 256
  }

  /** Payload, padding and ESP trailer. */
  function Body(sa: Sa, proto: byte, payload: seq<byte>, pad: seq<byte>): (r: seq<byte>)
    requires |pad| < 256
    ensures |r| == |payload| + if sa.esp.Some? then |pad| + ESP_TRL_LEN else 0
  {
    if sa.esp.None? then payload else payload + pad + [|pad|, proto]
  }

  /** The ciphered part is a number of whole blocks. */
  lemma WholeBlocks(sa: Sa, n: nat)
    requires sa.Valid() && sa.esp.Some?
    ensures (n + sa.TrlLen(n)) % sa.esp.value.blockLen == 0
  {
    EncodeLenExact(n + ESP_TRL_LEN, sa.esp.value.blockLen);
  }

  function Ciphered(sa: Sa, cr: Crypto, body: seq<byte>): seq<byte>
  {
    if sa.esp.None? then body else cr.enc(sa.esp.value.iv, body)
  }

  function OuterProto(sa: Sa): byte
  {
    if sa.ah.Some? then PROTO_AH else PROTO_ESP
  }

  /** The protocol the AH header names: ESP if that follows, else that of the payload. */
  function AhNext(sa: Sa, proto: byte): byte
  {
    if sa.esp.Some? then PROTO_ESP else proto
  }

  function OutHeader(sa: Sa, h: Header, n: nat): Header
    requires sa.Valid()
  {
    h.(proto := OuterProto(sa), totLen := Wrap16(h.totLen + sa.HdrLen() + sa.TrlLen(n)))
  }

  /** Everything after the IPv4 header. */
  function Wire(sa: Sa, cr: Crypto, h: Header, payload: seq<byte>, pad: seq<byte>, ahSeq: nat, espSeq: nat): seq<byte>
    requires sa.Valid() && Pads(sa, payload, pad) && ahSeq < 0x1_0000_0000 && espSeq < 0x1_0000_0000
    requires forall h, x :: |cr.mac(h, x)| == sa.IcvLen()
  {
    var next := AhNext(sa, h.proto);
    var rest := EspBytes(sa, Be32(espSeq)) + Ciphered(sa, cr, Body(sa, h.proto, payload, pad));
    var icv := cr.mac(Immutable(OutHeader(sa, h, |payload|)),
                      AhBytes(sa, next, Be32(ahSeq), Zeros(sa.IcvLen())) + rest);
    AhBytes(sa, next, Be32(ahSeq), icv) + rest
  }

  // ---------------------------------------------------------------- the receiver

  datatype Located = Located(ah: bool, esp: bool, ahLen: nat) {
    function Len(): nat { ahLen + if esp then ESP_HDR_LEN else 0 }
  }

  datatype Outcome =
    | Skipped
    | Dropped
    | Tunnelled
    | Mismatched
    | Malformed
    | Finished(ip: Header, payload: seq<byte>)

  function Locate(proto: byte, data: seq<byte>): Located
    requires proto == PROTO_AH ==> |data| >= AH_HDR_LEN
  {
    if proto == PROTO_AH then
      var words: int := data[1];
      Located(true, data[0] == PROTO_ESP, (words + 2) * 4)
    else
      Located(false, proto == PROTO_ESP, 0)
  }

  /** The headers found are ones the association has, with its indices. */
  predicate Matches(sa: Sa, l: Located, data: seq<byte>)
    requires l.ah ==> |data| >= AH_HDR_LEN
  {
    && (l.ah ==> sa.ah.Some? && data[4..8] == sa.ah.value.spi)
    && (l.esp ==> sa.esp.Some? && (|data| >= l.Len() ==> data[l.ahLen..l.ahLen + 4] == sa.esp.value.spi))
  }

  ghost function Receive(sa: Sa, cr: Crypto, h: Header, data: seq<byte>): Outcome
    requires sa.Valid() && Lawful(sa, cr) && h.totLen == IPV4_HDR_LEN + |data|
  {
    if h.proto != PROTO_AH && h.proto != PROTO_ESP then Skipped
    else if h.proto == PROTO_AH && |data| < AH_HDR_LEN then Malformed
    else
      var l := Locate(h.proto, data);
      if !Matches(sa, l, data) then Skipped
      else if l.ah != sa.ah.Some? || l.esp != sa.esp.Some? then Mismatched
      else if |data| < l.Len() + sa.IvLen() || |data| < sa.AhLen() then Malformed
      else if l.ah && !Authentic(sa, cr, h, data) then Dropped
      else Opened(sa, cr, h, Cleared(sa, data), l)
  }

  /** The packet with the hash taken out. */
  function Cleared(sa: Sa, data: seq<byte>): (r: seq<byte>)
    requires |data| >= sa.AhLen()
    ensures |r| == |data|
  {
    if sa.ah.Some? then Write(data, AH_HDR_LEN, Zeros(sa.IcvLen())) else data
  }

  ghost predicate Authentic(sa: Sa, cr: Crypto, h: Header, data: seq<byte>)
    requires sa.ah.Some? && |data| >= sa.AhLen()
  {
    cr.mac(Immutable(h), Cleared(sa, data)) == data[AH_HDR_LEN..AH_HDR_LEN + sa.IcvLen()]
  }

  ghost function Plain(sa: Sa, cr: Crypto, data: seq<byte>, l: Located): (r: seq<byte>)
    requires sa.Valid() && Lawful(sa, cr) && |data| >= l.Len() + sa.IvLen()
    ensures |r| == |data| - (l.Len() + sa.IvLen())
  {
    var hdr := l.Len() + sa.IvLen();
    if l.esp then cr.dec(data[l.Len()..hdr], data[hdr..]) else data[hdr..]
  }

  ghost function Opened(sa: Sa, cr: Crypto, h: Header, data: seq<byte>, l: Located): Outcome
    requires sa.Valid() && Lawful(sa, cr) && h.totLen == IPV4_HDR_LEN + |data|
    requires |data| >= l.Len() + sa.IvLen() && (l.ah ==> |data| >= AH_HDR_LEN)
  {
    var hdr, plain := l.Len() + sa.IvLen(), Plain(sa, cr, data, l);
    if l.esp && |plain| < ESP_TRL_LEN then Malformed
    else
      var proto := if l.esp then plain[|plain| - 1] else if l.ah then data[0] else h.proto;
      var pad: int := if l.esp then plain[|plain| - 2] else 0;
      var trl := if l.esp then pad + ESP_TRL_LEN else 0;
      if proto == PROTO_IPV4 then Tunnelled
      else if |plain| < trl then Malformed
      else
        Finished(Summed(cr, h.(proto := proto, totLen := h.totLen - (hdr + trl))), plain[..|plain| - trl])
  }

  // ---------------------------------------------------------------- the round trip

  /** What may happen on the way: type of service, fragment field, time to live and checksum change as they like. */
  predicate InTransit(sent: Header, got: Header)
  {
    && got.totLen == sent.totLen && got.id == sent.id && got.proto == sent.proto
    && got.src == sent.src && got.dst == sent.dst
  }

  /** The masked header stays the same under exactly these changes. */
  lemma MaskExact(sent: Header, got: Header)
    ensures InTransit(sent, got) <==> Immutable(sent) == Immutable(got)
  {
  }

  lemma WireParts(sa: Sa, cr: Crypto, h: Header, payload: seq<byte>, pad: seq<byte>, ahSeq: nat, espSeq: nat)
    returns (icv: seq<byte>, rest: seq<byte>)
    requires sa.Valid() && Lawful(sa, cr) && Pads(sa, payload, pad) && ahSeq < 0x1_0000_0000 && espSeq < 0x1_0000_0000
    ensures |icv| == sa.IcvLen() && |rest| == sa.EspLen() + |payload| + sa.TrlLen(|payload|)
    ensures Wire(sa, cr, h, payload, pad, ahSeq, espSeq) == AhBytes(sa, AhNext(sa, h.proto), Be32(ahSeq), icv) + rest
    ensures rest == EspBytes(sa, Be32(espSeq)) + Ciphered(sa, cr, Body(sa, h.proto, payload, pad))
    ensures icv == cr.mac(Immutable(OutHeader(sa, h, |payload|)),
                          AhBytes(sa, AhNext(sa, h.proto), Be32(ahSeq), Zeros(sa.IcvLen())) + rest)
  {
    rest := EspBytes(sa, Be32(espSeq)) + Ciphered(sa, cr, Body(sa, h.proto, payload, pad));
    icv := cr.mac(Immutable(OutHeader(sa, h, |payload|)),
                  AhBytes(sa, AhNext(sa, h.proto), Be32(ahSeq), Zeros(sa.IcvLen())) + rest);
  }

  /** The AH header is read where it was written, and its length byte leads behind it. */
  lemma AhFields(sa: Sa, next: byte, seqNo: seq<byte>, icv: seq<byte>, rest: seq<byte>)
    requires sa.Valid() && sa.ah.Some? && |seqNo| == 4 && |icv| == sa.IcvLen()
    ensures var data := AhBytes(sa, next, seqNo, icv) + rest;
            && data[0] == next && Locate(PROTO_AH, data) == Located(true, next == PROTO_ESP, sa.AhLen())
            && data[4..8] == sa.ah.value.spi
            && data[AH_HDR_LEN..AH_HDR_LEN + sa.IcvLen()] == icv
            && Cleared(sa, data) == AhBytes(sa, next, seqNo, Zeros(sa.IcvLen())) + rest
  {
    var data := AhBytes(sa, next, seqNo, icv) + rest;
    assert data[4..8] == sa.ah.value.spi;
    QuarterExact(sa.ah.value.icvLen);
  }

  lemma EspFields(sa: Sa, a: seq<byte>, seqNo: seq<byte>, c: seq<byte>)
    requires sa.Valid() && sa.esp.Some? && |seqNo| == 4
    ensures var data := a + (EspBytes(sa, seqNo) + c);
            && data[|a|..|a| + 4] == sa.esp.value.spi
            && data[|a| + ESP_HDR_LEN..|a| + sa.EspLen()] == sa.esp.value.iv
            && data[|a| + sa.EspLen()..] == c
  {
    var data := a + (EspBytes(sa, seqNo) + c);
    assert data[|a|..|a| + 4] == sa.esp.value.spi;
  }

  /** The same behind o bytes, with the sequence number. */
  lemma EspAt(sa: Sa, a: seq<byte>, o: nat, seqNo: seq<byte>, c: seq<byte>, data: seq<byte>)
    requires sa.Valid() && sa.esp.Some? && |seqNo| == 4 && o == |a| && data == a + (EspBytes(sa, seqNo) + c)
    ensures |data| >= o + sa.EspLen() == o + ESP_HDR_LEN + |sa.esp.value.iv|
    ensures data[o..o + 4] == sa.esp.value.spi && data[o + 4..o + ESP_HDR_LEN] == seqNo
    ensures data[o + ESP_HDR_LEN..o + sa.EspLen()] == sa.esp.value.iv && data[o + sa.EspLen()..] == c
  {
    assert data[o..o + 4] == sa.esp.value.spi;
  }

  lemma Trailer(sa: Sa, proto: byte, payload: seq<byte>, pad: seq<byte>)
    requires sa.Valid() && sa.esp.Some? && Pads(sa, payload, pad)
    ensures var b := Body(sa, proto, payload, pad);
            && |b| >= ESP_TRL_LEN && b[|b| - 1] == proto && b[|b| - 2] == |pad|
            && |b| - (|pad| + ESP_TRL_LEN) == |payload| && b[..|payload|] == payload
  {
  }

  /** An ESP header at the start of the packet part behind AH. */
  lemma Deciphered(sa: Sa, cr: Crypto, a: seq<byte>, seqNo: seq<byte>, proto: byte, payload: seq<byte>,
                   pad: seq<byte>, l: Located)
    requires sa.Valid() && Lawful(sa, cr) && sa.esp.Some? && Pads(sa, payload, pad) && |seqNo| == 4
    requires l.esp && l.ahLen == |a|
    ensures Plain(sa, cr, a + (EspBytes(sa, seqNo) + Ciphered(sa, cr, Body(sa, proto, payload, pad))), l)
         == Body(sa, proto, payload, pad)
  {
    WholeBlocks(sa, |payload|);
    assert Inverse(sa, cr, Body(sa, proto, payload, pad));
    EspFields(sa, a, seqNo, Ciphered(sa, cr, Body(sa, proto, payload, pad)));
  }

  /** A packet whose length field can hold what is added to it. */
  predicate Fits(sa: Sa, h: Header, n: nat)
    requires sa.Valid()
  {
    h.totLen == IPV4_HDR_LEN + n && h.totLen + sa.HdrLen() + sa.TrlLen(n) < 0x1_0000
  }

  ghost predicate Sendable(sa: Sa, cr: Crypto, h: Header, payload: seq<byte>, pad: seq<byte>, ahSeq: nat, espSeq: nat)
  {
    && sa.Valid() && Lawful(sa, cr) && Pads(sa, payload, pad) && Fits(sa, h, |payload|)
    && ahSeq < 0x1_0000_0000 && espSeq < 0x1_0000_0000
  }

  lemma WireSize(sa: Sa, cr: Crypto, h: Header, payload: seq<byte>, pad: seq<byte>, ahSeq: nat, espSeq: nat,
                 got: Header)
    requires Sendable(sa, cr, h, payload, pad, ahSeq, espSeq) && InTransit(OutHeader(sa, h, |payload|), got)
    ensures |Wire(sa, cr, h, payload, pad, ahSeq, espSeq)| == sa.HdrLen() + |payload| + sa.TrlLen(|payload|)
    ensures got.totLen == IPV4_HDR_LEN + sa.HdrLen() + |payload| + sa.TrlLen(|payload|)
    ensures got.proto == OuterProto(sa) && Immutable(got) == Immutable(OutHeader(sa, h, |payload|))
  {
    var icv, rest := WireParts(sa, cr, h, payload, pad, ahSeq, espSeq);
    MaskExact(OutHeader(sa, h, |payload|), got);
  }

  /** What the receiver makes of the packet sent for `h` and `payload`, whose header arrives as `got`. */
  ghost function Delivered(sa: Sa, cr: Crypto, h: Header, payload: seq<byte>, pad: seq<byte>,
                           ahSeq: nat, espSeq: nat, got: Header): Outcome
    requires Sendable(sa, cr, h, payload, pad, ahSeq, espSeq) && InTransit(OutHeader(sa, h, |payload|), got)
  {
    WireSize(sa, cr, h, payload, pad, ahSeq, espSeq, got);
    Receive(sa, cr, got, Wire(sa, cr, h, payload, pad, ahSeq, espSeq))
  }

  /** The receiver opens a packet whose headers it finds, knows and believes. */
  lemma ReceiveOpens(sa: Sa, cr: Crypto, h: Header, data: seq<byte>, l: Located)
    requires sa.Valid() && Lawful(sa, cr) && h.totLen == IPV4_HDR_LEN + |data| && h.proto == OuterProto(sa)
    requires |data| >= sa.HdrLen() && l == Locate(h.proto, data) == Located(sa.ah.Some?, sa.esp.Some?, sa.AhLen())
    requires Matches(sa, l, data) && (sa.ah.Some? ==> Authentic(sa, cr, h, data))
    ensures Receive(sa, cr, h, data) == Opened(sa, cr, h, Cleared(sa, data), l)
  {
  }

  /** The hash the sender wrote is the hash the receiver computes. */
  lemma HashAgrees(sa: Sa, cr: Crypto, h: Header, got: Header, next: byte, seqNo: seq<byte>, icv: seq<byte>,
                   rest: seq<byte>)
    requires sa.Valid() && sa.ah.Some? && |seqNo| == 4 && |icv| == sa.IcvLen() && InTransit(h, got)
    requires icv == cr.mac(Immutable(h), AhBytes(sa, next, seqNo, Zeros(sa.IcvLen())) + rest)
    ensures Authentic(sa, cr, got, AhBytes(sa, next, seqNo, icv) + rest)
  {
    MaskExact(h, got);
    AhFields(sa, next, seqNo, icv, rest);
  }

  /** AH only: the payload follows the hash. */
  lemma OpenAuthenticated(sa: Sa, cr: Crypto, h: Header, payload: seq<byte>, a: seq<byte>, got: Header, l: Located)
    requires sa.Valid() && Lawful(sa, cr) && sa.ah.Some? && sa.esp.None?
    requires |a| == sa.AhLen() && a[0] == h.proto && l == Located(true, false, |a|)
    requires h.totLen == IPV4_HDR_LEN + |payload| && got.totLen == h.totLen + |a|
    ensures Opened(sa, cr, got, a + payload, l) ==
            if h.proto == PROTO_IPV4 then Tunnelled
            else Finished(Summed(cr, got.(proto := h.proto, totLen := h.totLen)), payload)
  {
    assert Plain(sa, cr, a + payload, l) == payload;
  }

  lemma ReceiveAuthenticated(sa: Sa, cr: Crypto, h: Header, payload: seq<byte>, ahSeq: nat, espSeq: nat, got: Header)
    requires Sendable(sa, cr, h, payload, [], ahSeq, espSeq) && sa.esp.None?
    requires InTransit(OutHeader(sa, h, |payload|), got)
    ensures Delivered(sa, cr, h, payload, [], ahSeq, espSeq, got) ==
            if h.proto == PROTO_ESP then Skipped
            else if h.proto == PROTO_IPV4 then Tunnelled
            else Finished(Summed(cr, got.(proto := h.proto, totLen := h.totLen)), payload)
  {
    WireSize(sa, cr, h, payload, [], ahSeq, espSeq, got);
    var icv, rest := WireParts(sa, cr, h, payload, [], ahSeq, espSeq);
    assert rest == payload;
    AhFields(sa, h.proto, Be32(ahSeq), icv, payload);
    var a, a0 := AhBytes(sa, h.proto, Be32(ahSeq), icv), AhBytes(sa, h.proto, Be32(ahSeq), Zeros(sa.IcvLen()));
    var l := Locate(PROTO_AH, a + payload);
    if h.proto != PROTO_ESP {
      HashAgrees(sa, cr, OutHeader(sa, h, |payload|), got, h.proto, Be32(ahSeq), icv, payload);
      ReceiveOpens(sa, cr, got, a + payload, l);
      OpenAuthenticated(sa, cr, h, payload, a0, got, l);
    }
  }

  /** ESP, behind AH or not. */
  lemma OpenCiphered(sa: Sa, cr: Crypto, h: Header, payload: seq<byte>, pad: seq<byte>, a: seq<byte>, espSeq: nat,
                     got: Header, l: Located)
    requires sa.Valid() && Lawful(sa, cr) && sa.esp.Some? && Pads(sa, payload, pad) && espSeq < 0x1_0000_0000
    requires Fits(sa, h, |payload|) && got.totLen == h.totLen + sa.HdrLen() + sa.TrlLen(|payload|)
    requires l.esp && l.ahLen == |a| == sa.AhLen() && (l.ah ==> sa.ah.Some?)
    ensures var data := a + (EspBytes(sa, Be32(espSeq)) + Ciphered(sa, cr, Body(sa, h.proto, payload, pad)));
            Opened(sa, cr, got, data, l) ==
            if h.proto == PROTO_IPV4 then Tunnelled
            else Finished(Summed(cr, got.(proto := h.proto, totLen := h.totLen)), payload)
  {
    Deciphered(sa, cr, a, Be32(espSeq), h.proto, payload, pad, l);
    Trailer(sa, h.proto, payload, pad);
  }

  lemma ReceiveCiphered(sa: Sa, cr: Crypto, h: Header, payload: seq<byte>, pad: seq<byte>, ahSeq: nat, espSeq: nat,
                        got: Header)
    requires Sendable(sa, cr, h, payload, pad, ahSeq, espSeq) && sa.esp.Some?
    requires InTransit(OutHeader(sa, h, |payload|), got)
    ensures Delivered(sa, cr, h, payload, pad, ahSeq, espSeq, got) ==
            if h.proto == PROTO_IPV4 then Tunnelled
            else Finished(Summed(cr, got.(proto := h.proto, totLen := h.totLen)), payload)
  {
    WireSize(sa, cr, h, payload, pad, ahSeq, espSeq, got);
    var icv, rest := WireParts(sa, cr, h, payload, pad, ahSeq, espSeq);
    var a, a0 := AhBytes(sa, PROTO_ESP, Be32(ahSeq), icv), AhBytes(sa, PROTO_ESP, Be32(ahSeq), Zeros(sa.IcvLen()));
    var l := Located(sa.ah.Some?, true, sa.AhLen());
    EspFields(sa, a, Be32(espSeq), Ciphered(sa, cr, Body(sa, h.proto, payload, pad)));
    if sa.ah.Some? {
      AhFields(sa, PROTO_ESP, Be32(ahSeq), icv, rest);
      HashAgrees(sa, cr, OutHeader(sa, h, |payload|), got, PROTO_ESP, Be32(ahSeq), icv, rest);
    }
    assert Cleared(sa, a + rest) == a0 + rest;
    ReceiveOpens(sa, cr, got, a + rest, l);
    OpenCiphered(sa, cr, h, payload, pad, a0, espSeq, got, l);
  }

  /**
   What is sent is restored: payload, protocol and length, and with them the fields as they
   were when the packet arrived, exactly when the protocol is not one the receiver takes for
   its own.  An IPv4-in-IPv4 payload is taken for a tunnel, and with AH alone an ESP payload
   for a header of another association.
   */
  lemma RoundTrip(sa: Sa, cr: Crypto, h: Header, payload: seq<byte>, pad: seq<byte>, ahSeq: nat, espSeq: nat,
                  got: Header)
    requires Sendable(sa, cr, h, payload, pad, ahSeq, espSeq) && InTransit(OutHeader(sa, h, |payload|), got)
    ensures Delivered(sa, cr, h, payload, pad, ahSeq, espSeq, got)
         == Finished(Summed(cr, got.(proto := h.proto, totLen := h.totLen)), payload)
       <==> h.proto != PROTO_IPV4 && (sa.esp.None? ==> h.proto != PROTO_ESP)
  {
    if sa.esp.Some? {
      ReceiveCiphered(sa, cr, h, payload, pad, ahSeq, espSeq, got);
    } else {
      assert pad == [];
      ReceiveAuthenticated(sa, cr, h, payload, ahSeq, espSeq, got);
    }
  }

  /** A packet that arrives as it was sent becomes the packet it was, down to its checksum. */
  lemma RestoresPacket(sa: Sa, cr: Crypto, h: Header, payload: seq<byte>, pad: seq<byte>, ahSeq: nat, espSeq: nat)
    requires Sendable(sa, cr, h, payload, pad, ahSeq, espSeq) && h.chksum == cr.checksum(h.(chksum := 0))
    requires h.proto != PROTO_IPV4 && (sa.esp.None? ==> h.proto != PROTO_ESP)
    ensures Delivered(sa, cr, h, payload, pad, ahSeq, espSeq, Summed(cr, OutHeader(sa, h, |payload|))) ==
            Finished(h, payload)
  {
    var got := Summed(cr, OutHeader(sa, h, |payload|));
    RoundTrip(sa, cr, h, payload, pad, ahSeq, espSeq, got);
    assert got.(proto := h.proto, totLen := h.totLen, chksum := 0) == h.(chksum := 0);
  }

  // ---------------------------------------------------------------- the wire, field by field

  /** The value of four bytes, the most significant first. */
  function Value32(b: seq<byte>): nat
    requires |b| == 4
  {
    ((b[0] as int * 0x100 + b[1]) * 0x100 + b[2]) * 0x100 + b[3]
  }

  lemma Be32Value(w: nat)
    requires w < 0x1_0000_0000
    ensures Value32(Be32(w)) == w
  {
    var b := Be32(w);
    assert b[3] == Digit(w, 0) && b[2] == Digit(w, 1) && b[1] == Digit(w, 2) && b[0] == Digit(w, 3);
    assert Digit(w, 1) == Digit(w / 0x100, 0);
    assert Digit(w, 2) == Digit(w / 0x100, 1) == Digit(w / 0x100 / 0x100, 0);
    assert Digit(w, 3) == Digit(w / 0x100, 2) == Digit(w / 0x100 / 0x100, 1) == Digit(w / 0x100 / 0x100 / 0x100, 0);
  }

  /** The AH header of a packet on the wire: its fields at their offsets, and a hash over all the rest. */
  lemma WireAh(sa: Sa, cr: Crypto, h: Header, payload: seq<byte>, pad: seq<byte>, ahSeq: nat, espSeq: nat)
    requires Sendable(sa, cr, h, payload, pad, ahSeq, espSeq) && sa.ah.Some?
    ensures var w := Wire(sa, cr, h, payload, pad, ahSeq, espSeq);
            && |w| >= sa.AhLen() == 12 + sa.ah.value.icvLen
            && w[0] == (if sa.esp.Some? then PROTO_ESP else h.proto) && (w[1] as int + 2) * 4 == sa.AhLen()
            && w[2] == w[3] == 0 && w[4..8] == sa.ah.value.spi && Value32(w[8..12]) == ahSeq
            && w[12..sa.AhLen()] == cr.mac(Immutable(OutHeader(sa, h, |payload|)),
                                           w[..12] + Zeros(sa.ah.value.icvLen) + w[sa.AhLen()..])
  {
    var icv, rest := WireParts(sa, cr, h, payload, pad, ahSeq, espSeq);
    var w := Wire(sa, cr, h, payload, pad, ahSeq, espSeq);
    AhFields(sa, AhNext(sa, h.proto), Be32(ahSeq), icv, rest);
    QuarterExact(sa.ah.value.icvLen);
    Be32Value(ahSeq);
    assert w[8..12] == Be32(ahSeq);
    assert w[..12] + Zeros(sa.ah.value.icvLen) + w[sa.AhLen()..]
        == AhBytes(sa, AhNext(sa, h.proto), Be32(ahSeq), Zeros(sa.IcvLen())) + rest;
  }

  /** The ESP header at its offsets, and behind it the ciphered payload with padding, its length and the protocol. */
  lemma WireEsp(sa: Sa, cr: Crypto, h: Header, payload: seq<byte>, pad: seq<byte>, ahSeq: nat, espSeq: nat, o: nat)
    requires Sendable(sa, cr, h, payload, pad, ahSeq, espSeq) && sa.esp.Some? && o == sa.AhLen()
    ensures var w := Wire(sa, cr, h, payload, pad, ahSeq, espSeq);
            && |w| >= o + sa.EspLen() == o + ESP_HDR_LEN + |sa.esp.value.iv|
            && w[o..o + 4] == sa.esp.value.spi && Value32(w[o + 4..o + ESP_HDR_LEN]) == espSeq
            && w[o + ESP_HDR_LEN..o + sa.EspLen()] == sa.esp.value.iv
            && w[o + sa.EspLen()..] == cr.enc(sa.esp.value.iv, payload + pad + [|pad|, h.proto])
  {
    var icv, rest := WireParts(sa, cr, h, payload, pad, ahSeq, espSeq);
    EspAt(sa, AhBytes(sa, AhNext(sa, h.proto), Be32(ahSeq), icv), o, Be32(espSeq),
          Ciphered(sa, cr, Body(sa, h.proto, payload, pad)), Wire(sa, cr, h, payload, pad, ahSeq, espSeq));
    Be32Value(espSeq);
  }

  /** A packet is skipped exactly if a header it has is missing in the association or bears another index. */
  lemma SkipsExactly(sa: Sa, cr: Crypto, h: Header, data: seq<byte>)
    requires sa.Valid() && Lawful(sa, cr) && h.totLen == IPV4_HDR_LEN + |data|
    requires h.proto == PROTO_ESP ==> |data| >= 8
    requires h.proto == PROTO_AH ==> |data| >= 12 && (data[0] == PROTO_ESP ==> |data| >= (data[1] as int + 2) * 4 + 8)
    ensures Receive(sa, cr, h, data).Skipped? <==>
            || (h.proto != PROTO_AH && h.proto != PROTO_ESP)
            || (h.proto == PROTO_AH && (sa.ah.None? || data[4..8] != sa.ah.value.spi))
            || (h.proto == PROTO_ESP && (sa.esp.None? || data[..4] != sa.esp.value.spi))
            || (h.proto == PROTO_AH && data[0] == PROTO_ESP
                && var o := (data[1] as int + 2) * 4; sa.esp.None? || data[o..o + 4] != sa.esp.value.spi)
  {
  }

  /**
   A packet that is not the one sent, or whose unchanging header fields differ, and that still gets
   past the receiver with the hash that was sent, is a collision of the keyed hash.
   */
  lemma ForgeryIsCollision(sa: Sa, cr: Crypto, h: Header, payload: seq<byte>, pad: seq<byte>, ahSeq: nat, espSeq: nat,
                           got: Header, data: seq<byte>)
    requires Sendable(sa, cr, h, payload, pad, ahSeq, espSeq) && sa.ah.Some?
    requires got.totLen == IPV4_HDR_LEN + |data| && got.proto == PROTO_AH
    requires Receive(sa, cr, got, data).Finished? || Receive(sa, cr, got, data).Tunnelled?
    requires var w := Wire(sa, cr, h, payload, pad, ahSeq, espSeq);
             |w| >= sa.AhLen() && |data| >= sa.AhLen() && data[12..sa.AhLen()] == w[12..sa.AhLen()]
    ensures var w, out := Wire(sa, cr, h, payload, pad, ahSeq, espSeq), OutHeader(sa, h, |payload|);
            || (data == w && InTransit(out, got))
            || ((Immutable(got), Cleared(sa, data)) != (Immutable(out), Cleared(sa, w))
                && cr.mac(Immutable(got), Cleared(sa, data)) == cr.mac(Immutable(out), Cleared(sa, w)))
  {
    var w, out := Wire(sa, cr, h, payload, pad, ahSeq, espSeq), OutHeader(sa, h, |payload|);
    var icv, rest := WireParts(sa, cr, h, payload, pad, ahSeq, espSeq);
    AhFields(sa, AhNext(sa, h.proto), Be32(ahSeq), icv, rest);
    MaskExact(out, got);
    if Cleared(sa, data) == Cleared(sa, w) {
      ClearedSame(sa, data, w);
    }
  }

  /** Two packets with the same hash that agree with it taken out are the same. */
  lemma ClearedSame(sa: Sa, x: seq<byte>, y: seq<byte>)
    requires sa.ah.Some? && |x| >= sa.AhLen() && |y| >= sa.AhLen() && x[12..sa.AhLen()] == y[12..sa.AhLen()]
    requires Cleared(sa, x) == Cleared(sa, y)
    ensures x == y
  {
    ClearedParts(sa, x, sa.AhLen());
    ClearedParts(sa, y, sa.AhLen());
  }

  lemma ClearedParts(sa: Sa, x: seq<byte>, n: nat)
    requires sa.ah.Some? && n == sa.AhLen() <= |x|
    ensures Cleared(sa, x)[..12] == x[..12] && Cleared(sa, x)[n..] == x[n..] && x == x[..12] + x[12..n] + x[n..]
  {
    assert x == x[..12] + x[12..n] + x[n..];
  }
}
