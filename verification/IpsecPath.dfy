/**
 The packet as the processing stages change it: header fields overwritten one at a time,
 bytes moved and stored in the segment behind the IPv4 header.
 */
module IpsecPath {

  import opened Options
  import opened Ipsec

  datatype Disposition = Continue | Posted | Drop

  /** The per-packet context: fields to restore, headers present, lengths. */
  datatype Context = Context(tos: byte, frag: nat, ttl: byte, ah: bool, esp: bool, hdrLen: nat, trlLen: nat)

  function Layout(sa: Sa, next: byte, ahSeq: seq<byte>, icv: seq<byte>, espSeq: seq<byte>,
                  body: seq<byte>): (r: seq<byte>)
    requires sa.Valid() && |ahSeq| == 4 && |espSeq| == 4 && |icv| == sa.IcvLen()
    ensures |r| == sa.HdrLen() + |body|
  {
    AhBytes(sa, next, ahSeq, icv) + (EspBytes(sa, espSeq) + body)
  }

  // ---------------------------------------------------------------- regrouping

  lemma FirstFour(a: seq<byte>, e: seq<byte>, c: seq<byte>)
    requires |e| >= 8
    ensures a + e + c == a + e[..4] + (e[4..] + c)
  {
  }

  lemma PastSeqNo(a: seq<byte>, spi: seq<byte>, e: seq<byte>, c: seq<byte>)
    requires |e| >= 8
    ensures a + spi + (e[4..] + c) == (a + spi + e[4..8]) + e[8..] + c
  {
  }

  lemma HeaderFirst(a: seq<byte>, x: seq<byte>, y: seq<byte>, z: seq<byte>, c: seq<byte>)
    ensures (a + x + y) + z + c == a + (x + y + z) + c
  {
  }

  lemma TrailerLast(h: seq<byte>, payload: seq<byte>, was: seq<byte>, pad: seq<byte>, old2: seq<byte>, rest: seq<byte>)
    requires was == pad + old2 + rest
    ensures h + (payload + was) == (h + payload + pad) + old2 + rest
  {
  }

  lemma BodyLast(h: seq<byte>, payload: seq<byte>, pad: seq<byte>, trailer: seq<byte>, rest: seq<byte>)
    ensures (h + payload + pad) + trailer + rest == h + ((payload + pad + trailer) + rest)
  {
  }

  lemma AhFront(z: seq<byte>, c: seq<byte>)
    requires |z| >= 8
    ensures [] + z + c == z[..4] + z[4..8] + (z[8..] + c)
  {
  }

  lemma AhBack(x: byte, y: byte, spi: seq<byte>, z: seq<byte>, c: seq<byte>)
    ensures [x, y, 0, 0] + spi + (z + c) == [x] + [y] + ([0, 0] + spi + (z + c))
    ensures [] + [x] + ([y, 0, 0] + spi + (z + c)) == [x, y, 0, 0] + spi + (z + c)
    ensures [x, y, 0, 0] + spi + (z + c) == ([x, y, 0, 0] + spi + z) + c
  {
  }

  lemma ZerosSplit(n: nat)
    ensures Zeros(12 + n)[..4] == [0, 0, 0, 0] && Zeros(12 + n)[8..] == [0, 0, 0, 0] + Zeros(n)
  {
  }

  /** A length that padding and trailer can have. */
  predicate TrlOk(sa: Sa, t: nat)
  {
    if sa.esp.Some? then ESP_TRL_LEN <= t <= ESP_TRL_LEN + 255 else t == 0
  }

  /** The padding is whatever the segment holds behind the place of the payload. */
  ghost function PadOf(sa: Sa, data: seq<byte>, n: nat, t: nat): (r: seq<byte>)
    requires TrlOk(sa, t) && sa.HdrLen() + n + t <= |data|
    ensures |r| < 256
  {
    if sa.esp.None? then [] else data[sa.HdrLen() + n..sa.HdrLen() + n + t - ESP_TRL_LEN]
  }

  /** The bytes of the ESP sequence number before it is assigned. */
  ghost function GapOf(sa: Sa, data: seq<byte>): (r: seq<byte>)
    requires sa.HdrLen() <= |data|
    ensures |r| == 4
  {
    if sa.esp.None? then [0, 0, 0, 0] else data[sa.AhLen() + 4..sa.AhLen() + 8]
  }

  /** The header while it is authenticated. */
  function Masked(sa: Sa, h: Header): Header
  {
    if sa.ah.Some? then Immutable(h) else h
  }

  /** The packet ready for its sequence numbers. */
  ghost function Prepared(sa: Sa, proto: byte, data: seq<byte>, n: nat, t: nat): (r: seq<byte>)
    requires sa.Valid() && TrlOk(sa, t) && sa.HdrLen() + n + t <= |data|
    ensures |r| == sa.HdrLen() + n + t
  {
    Layout(sa, AhNext(sa, proto), [0, 0, 0, 0], Zeros(sa.IcvLen()), GapOf(sa, data),
           Body(sa, proto, data[..n], PadOf(sa, data, n, t)))
  }

  /** Everything behind the AH header, up to the end of the segment. */
  ghost function BehindAh(sa: Sa, proto: byte, data: seq<byte>, n: nat, t: nat): seq<byte>
    requires sa.Valid() && TrlOk(sa, t) && sa.HdrLen() + n + t <= |data|
  {
    EspBytes(sa, GapOf(sa, data)) + (Body(sa, proto, data[..n], PadOf(sa, data, n, t)) + data[sa.HdrLen() + n + t..])
  }

  lemma Assoc(a: seq<byte>, b: seq<byte>, c: seq<byte>)
    ensures a + b + c == a + (b + c)
  {
  }

  lemma ThreeSlices(was: seq<byte>, i: nat, j: nat)
    requires i <= j <= |was| - 2
    ensures was[i..] == was[i..j] + was[j..j + 2] + was[j + 2..]
  {
  }

  /** The segment before the ESP stores, in its parts. */
  lemma EspParts(sa: Sa, was: seq<byte>, n: nat, t: nat)
    returns (a: seq<byte>, e: seq<byte>, payload: seq<byte>, pad: seq<byte>, junk: seq<byte>, rest: seq<byte>)
    requires sa.Valid() && sa.esp.Some? && TrlOk(sa, t) && sa.HdrLen() + n + t <= |was|
    ensures a == was[..sa.AhLen()] && e == was[sa.AhLen()..sa.HdrLen()] && payload == was[..n]
    ensures |a| == sa.AhLen() && |e| == sa.EspLen() && |payload| == n && |pad| == t - ESP_TRL_LEN
    ensures |junk| == ESP_TRL_LEN
    ensures pad == PadOf(sa, was, n, t) && rest == was[sa.HdrLen() + n + t..]
    ensures was[sa.HdrLen() + n..] == pad + junk + rest && e[4..8] == GapOf(sa, was)
  {
    var h := sa.HdrLen();
    a, e, payload := was[..sa.AhLen()], was[sa.AhLen()..h], was[..n];
    var i, j := h + n, h + n + t - ESP_TRL_LEN;
    pad, junk, rest := PadOf(sa, was, n, t), was[j..h + n + t], was[h + n + t..];
    ThreeSlices(was, i, j);
    SubSlice(was, sa.AhLen(), h);
  }

  lemma SubSlice(was: seq<byte>, i: nat, j: nat)
    requires i + 8 <= j <= |was|
    ensures was[i..j][4..8] == was[i + 4..i + 8]
  {
    var x, y := was[i..j][4..8], was[i + 4..i + 8];
    assert |x| == |y| == 4 && forall k :: 0 <= k < 4 ==> x[k] == y[k];
  }

  lemma EspBehind(sa: Sa, was: seq<byte>, n: nat, t: nat, proto: byte)
    requires sa.Valid() && sa.esp.Some? && TrlOk(sa, t) && sa.HdrLen() + n + t <= |was|
    ensures was[..sa.AhLen()] + EspBytes(sa, GapOf(sa, was))
          + (Body(sa, proto, was[..n], PadOf(sa, was, n, t)) + was[sa.HdrLen() + (n + t)..])
         == was[..sa.AhLen()] + BehindAh(sa, proto, was, n, t)
  {
    assert sa.HdrLen() + (n + t) == sa.HdrLen() + n + t;
    Assoc(was[..sa.AhLen()], EspBytes(sa, GapOf(sa, was)),
          Body(sa, proto, was[..n], PadOf(sa, was, n, t)) + was[sa.HdrLen() + n + t..]);
  }

  lemma EmptyMiddle(a: seq<byte>, b: seq<byte>, c: seq<byte>)
    requires |b| == 0
    ensures a + b + c == a + ([] + c)
  {
  }

  lemma NoEspBehind(sa: Sa, was: seq<byte>, n: nat, proto: byte)
    requires sa.Valid() && sa.esp.None? && sa.HdrLen() + n <= |was|
    ensures was[..sa.AhLen()] + was[sa.AhLen()..sa.HdrLen()] + (was[..n] + was[sa.HdrLen() + n..])
         == was[..sa.AhLen()] + BehindAh(sa, proto, was, n, 0)
  {
    var c := was[..n] + was[sa.HdrLen() + n..];
    EmptyMiddle(was[..sa.AhLen()], was[sa.AhLen()..sa.HdrLen()], c);
  }

  lemma PreparedIs(sa: Sa, was: seq<byte>, n: nat, t: nat, proto: byte)
    requires sa.Valid() && TrlOk(sa, t) && sa.HdrLen() + n + t <= |was|
    ensures AhBytes(sa, AhNext(sa, proto), [0, 0, 0, 0], Zeros(sa.IcvLen())) + BehindAh(sa, proto, was, n, t)
         == Prepared(sa, proto, was, n, t) + was[sa.HdrLen() + n + t..]
  {
  }

  lemma Behind(a: seq<byte>, x: seq<byte>, y: seq<byte>, c: seq<byte>)
    ensures (a + x + y) + c == a + x + (y + c)
  {
  }

  lemma Between(a: seq<byte>, spi: seq<byte>, x: seq<byte>, iv: seq<byte>, c: seq<byte>)
    ensures a + ((spi + x + iv) + c) == (a + spi) + x + (iv + c)
  {
  }

  lemma FourParts(a: seq<byte>, b: seq<byte>, c: seq<byte>, d: seq<byte>)
    ensures a + (b + (c + d)) == (a + b) + c + d == a + ((b + c) + d)
  {
  }

  lemma LayoutParts(sa: Sa, next: byte, ahSeq: seq<byte>, icv: seq<byte>, espSeq: seq<byte>, body: seq<byte>,
                    rest: seq<byte>)
    requires sa.Valid() && |ahSeq| == 4 && |espSeq| == 4 && |icv| == sa.IcvLen()
    ensures Layout(sa, next, ahSeq, icv, espSeq, body) + rest
         == AhBytes(sa, next, ahSeq, icv) + (EspBytes(sa, espSeq) + (body + rest))
  {
  }

  /** The packet after the crypto operation, up to the end of the segment. */
  ghost function Secured(sa: Sa, crypto: Crypto, ip: Header, next: byte, ahSeq: seq<byte>, espSeq: seq<byte>,
                         body: seq<byte>, rest: seq<byte>): seq<byte>
    requires sa.Valid() && Lawful(sa, crypto) && |ahSeq| == 4 && |espSeq| == 4
  {
    var c := EspBytes(sa, espSeq) + Ciphered(sa, crypto, body);
    var icv := crypto.mac(ip, AhBytes(sa, next, ahSeq, Zeros(sa.IcvLen())) + c);
    AhBytes(sa, next, ahSeq, icv) + (c + rest)
  }

  lemma WireIs(sa: Sa, crypto: Crypto, h: Header, payload: seq<byte>, pad: seq<byte>, ahSeq: nat, espSeq: nat,
               ip: Header, rest: seq<byte>)
    requires sa.Valid() && Lawful(sa, crypto) && Pads(sa, payload, pad) && ahSeq < 0x1_0000_0000
    requires espSeq < 0x1_0000_0000
    requires ip == Masked(sa, OutHeader(sa, h, |payload|))
    ensures Secured(sa, crypto, ip, AhNext(sa, h.proto), Be32(ahSeq), Be32(espSeq), Body(sa, h.proto, payload, pad),
                    rest)
         == Wire(sa, crypto, h, payload, pad, ahSeq, espSeq) + rest
  {
    var c := EspBytes(sa, Be32(espSeq)) + Ciphered(sa, crypto, Body(sa, h.proto, payload, pad));
    var icv := crypto.mac(Immutable(OutHeader(sa, h, |payload|)),
                          AhBytes(sa, AhNext(sa, h.proto), Be32(ahSeq), Zeros(sa.IcvLen())) + c);
    Assoc(AhBytes(sa, AhNext(sa, h.proto), Be32(ahSeq), icv), c, rest);
  }

  /** The segment can hold what is added to the packet. */
  predicate RoomFor(sa: Sa, h: Header, data: seq<byte>)
    requires sa.Valid()
  {
    && h.totLen >= IPV4_HDR_LEN
    && sa.HdrLen() + (h.totLen - IPV4_HDR_LEN) + sa.TrlLen(h.totLen - IPV4_HDR_LEN) <= |data|
  }

  /** What classification makes of header h and segment was: the context, header ip and segment data. */
  ghost predicate Classified(sa: Sa, h: Header, was: seq<byte>, n: nat, ctx: Context, ip: Header, data: seq<byte>)
    requires sa.Valid() && RoomFor(sa, h, was) && n == h.totLen - IPV4_HDR_LEN
  {
    && ctx == Context(h.tos, h.frag, h.ttl, sa.ah.Some?, sa.esp.Some?, sa.HdrLen(), sa.TrlLen(n))
    && ip == Masked(sa, OutHeader(sa, h, n))
    && data == Prepared(sa, h.proto, was, n, sa.TrlLen(n)) + was[sa.HdrLen() + n + sa.TrlLen(n)..]
  }

  lemma IsClassified(sa: Sa, h: Header, was: seq<byte>, n: nat, ctx: Context, ip: Header, data: seq<byte>)
    requires sa.Valid() && RoomFor(sa, h, was) && n == h.totLen - IPV4_HDR_LEN
    requires ctx == Context(h.tos, h.frag, h.ttl, sa.ah.Some?, sa.esp.Some?, sa.HdrLen(), sa.TrlLen(n))
    requires ip == Masked(sa, h.(proto := OuterProto(sa))).(totLen := Wrap16(h.totLen + sa.HdrLen() + sa.TrlLen(n)))
    requires data == Prepared(sa, h.proto, was, n, sa.TrlLen(n)) + was[sa.HdrLen() + n + sa.TrlLen(n)..]
    ensures Classified(sa, h, was, n, ctx, ip, data)
  {
  }

  /** The segment after output: the wire format of the payload, and what was behind it. */
  ghost function Sent(sa: Sa, crypto: Crypto, h: Header, data: seq<byte>, n: nat, ahSeq: nat,
                      espSeq: nat): seq<byte>
    requires sa.Valid() && Lawful(sa, crypto) && RoomFor(sa, h, data) && n == h.totLen - IPV4_HDR_LEN
    requires ahSeq < 0x1_0000_0000 && espSeq < 0x1_0000_0000
  {
    Wire(sa, crypto, h, data[..n], PadOf(sa, data, n, sa.TrlLen(n)), ahSeq, espSeq)
        + data[sa.HdrLen() + n + sa.TrlLen(n)..]
  }

  /** A 32-bit counter goes from its last value to zero. */
  function NextSeq(w: nat): nat
  {
    if w == 0xFFFF_FFFF then 0 else w + 1
  }

  /** The counter after n packets. */
  function SeqAfter(w: nat, n: nat): nat
  {
    if n == 0 then w else NextSeq(SeqAfter(w, n - 1))
  }

  lemma {:induction false} SeqCounts(w: nat, n: nat)
    requires w < 0x1_0000_0000
    ensures SeqAfter(w, n) == (w + n) % 0x1_0000_0000
  {
    if n == 0 {
    } else {
      SeqCounts(w, n - 1);
    }
  }

  /** No sequence number is used twice within 2^32 packets. */
  lemma SeqsDiffer(w: nat, i: nat, j: nat)
    requires w < 0x1_0000_0000 && i < j < i + 0x1_0000_0000
    ensures SeqAfter(w, i) != SeqAfter(w, j)
  {
    SeqCounts(w, i);
    SeqCounts(w, j);
  }

  lemma PadsHold(sa: Sa, was: seq<byte>, n: nat)
    requires sa.Valid() && sa.HdrLen() + n + sa.TrlLen(n) <= |was|
    ensures Pads(sa, was[..n], PadOf(sa, was, n, sa.TrlLen(n)))
  {
    assert |was[..n]| == n;
  }

  lemma SentParts(sa: Sa, crypto: Crypto, h: Header, was: seq<byte>, n: nat, ahSeq: nat, espSeq: nat)
    returns (payload: seq<byte>, pad: seq<byte>, gap: seq<byte>, rest: seq<byte>)
    requires sa.Valid() && Lawful(sa, crypto) && RoomFor(sa, h, was) && n == h.totLen - IPV4_HDR_LEN
    requires ahSeq < 0x1_0000_0000 && espSeq < 0x1_0000_0000
    ensures payload == was[..n] && |payload| == n && Pads(sa, payload, pad) && |gap| == 4
    ensures Prepared(sa, h.proto, was, n, sa.TrlLen(n))
         == Layout(sa, AhNext(sa, h.proto), [0, 0, 0, 0], Zeros(sa.IcvLen()), gap, Body(sa, h.proto, payload, pad))
    ensures rest == was[sa.HdrLen() + n + sa.TrlLen(n)..]
    ensures Sent(sa, crypto, h, was, n, ahSeq, espSeq) == Wire(sa, crypto, h, payload, pad, ahSeq, espSeq) + rest
  {
    var t := sa.TrlLen(n);
    PadsHold(sa, was, n);
    payload, pad := was[..n], PadOf(sa, was, n, t);
    gap, rest := GapOf(sa, was), was[sa.HdrLen() + n + t..];
  }

  /** The parts of a segment and those of the packet at its front. */
  lemma PrefixParts(was: seq<byte>, n: nat, i: nat, j: nat)
    requires i <= j <= n <= |was|
    ensures was[..n][..i] == was[..i] && was[..n][i..j] == was[i..j] && was[..n][j..] + was[n..] == was[j..]
  {
    assert was[..n][i..j] == was[i..j];
  }

  lemma ClearParts(sa: Sa, was: seq<byte>, n: nat)
    requires sa.ah.Some? && sa.AhLen() <= n <= |was|
    ensures was == was[..AH_HDR_LEN] + was[AH_HDR_LEN..sa.AhLen()] + was[sa.AhLen()..]
    ensures was[..AH_HDR_LEN] + Zeros(sa.IcvLen()) + was[sa.AhLen()..] == Cleared(sa, was[..n]) + was[n..]
    ensures was[..n][AH_HDR_LEN..sa.AhLen()] == was[AH_HDR_LEN..sa.AhLen()]
  {
    PrefixParts(was, n, AH_HDR_LEN, sa.AhLen());
    assert was == was[..AH_HDR_LEN] + was[AH_HDR_LEN..sa.AhLen()] + was[sa.AhLen()..];
  }

  lemma TakeParts(d: seq<byte>, rest: seq<byte>, i: nat, j: nat)
    requires i <= j <= |d|
    ensures d + rest == d[..j] + d[j..] + rest
    ensures (d + rest)[i..j] == d[i..j] && (d + rest)[j..|d|] == d[j..]
  {
  }

  lemma NoCipher(d: seq<byte>, rest: seq<byte>, j: nat)
    requires j <= |d|
    ensures d + rest == d[..j] + d[j..] + rest
  {
  }

  datatype Verdict = Skipping | Dropping | Tunnel | Accepted

  /** The protocol behind the IPsec headers. */
  function NextProto(ctx: Context, ip: Header, pre: seq<byte>, plain: seq<byte>): byte
    requires (ctx.ah ==> |pre| > 0) && (ctx.esp ==> |plain| > 0)
  {
    if ctx.esp then plain[|plain| - 1] else if ctx.ah then pre[0] else ip.proto
  }

  /** Padding and trailer, by the length byte of the trailer. */
  function Trl(ctx: Context, plain: seq<byte>): nat
    requires ctx.esp ==> |plain| >= ESP_TRL_LEN
  {
    var pad: int := if ctx.esp then plain[|plain| - 2] else 0;
    if ctx.esp then pad + ESP_TRL_LEN else 0
  }

  /** What the input path did is what the receiver is meant to make of the packet. */
  ghost predicate Agrees(verdict: Verdict, o: Outcome, ip: Header, data: seq<byte>)
  {
    && (verdict == Skipping <==> o.Skipped?)
    && (verdict == Dropping <==> o.Dropped?)
    && (verdict == Tunnel <==> o.Tunnelled?)
    && (verdict == Accepted <==> o.Finished?)
    && (o.Finished? ==>
          ip == o.ip && IPV4_HDR_LEN + |o.payload| == ip.totLen && |o.payload| <= |data|
          && data[..|o.payload|] == o.payload)
  }

  /** Opening a packet, in the terms of the cleanup stage. */
  lemma OpenedBy(sa: Sa, crypto: Crypto, h: Header, d: seq<byte>, l: Located, ctx: Context)
    requires sa.Valid() && Lawful(sa, crypto) && h.totLen == IPV4_HDR_LEN + |d|
    requires |d| >= l.Len() + sa.IvLen() && (l.ah ==> l.ahLen > 0 && |d| >= AH_HDR_LEN)
    requires ctx == Context(h.tos, h.frag, h.ttl, l.ah, l.esp, l.Len() + sa.IvLen(), 0)
    ensures var plain, pre := Plain(sa, crypto, d, l), d[..l.Len() + sa.IvLen()];
            var o := Opened(sa, crypto, h, d, l);
            && (o == Malformed <==>
                  ctx.esp && (|plain| < ESP_TRL_LEN
                              || (NextProto(ctx, h, pre, plain) != PROTO_IPV4 && |plain| < Trl(ctx, plain))))
            && (o != Malformed ==> o == if NextProto(ctx, h, pre, plain) == PROTO_IPV4 then Tunnelled else
                  Finished(Summed(crypto, h.(proto := NextProto(ctx, h, pre, plain),
                                             totLen := h.totLen - (ctx.hdrLen + Trl(ctx, plain)))),
                           plain[..|plain| - Trl(ctx, plain)]))
  {
  }

  /** A packet whose headers the receiver found and knows, and that is large enough for them. */
  ghost predicate Opens(sa: Sa, crypto: Crypto, h: Header, packet: seq<byte>, l: Located)
  {
    && sa.Valid() && Lawful(sa, crypto) && h.totLen == IPV4_HDR_LEN + |packet|
    && l.ah == sa.ah.Some? && l.esp == sa.esp.Some? && (l.ah ==> l.ahLen > 0)
    && |packet| >= l.Len() + sa.IvLen() && |packet| >= sa.AhLen()
    && Receive(sa, crypto, h, packet) != Malformed
    && (if l.ah && !Authentic(sa, crypto, h, packet) then Receive(sa, crypto, h, packet) == Dropped
        else Receive(sa, crypto, h, packet) == Opened(sa, crypto, h, Cleared(sa, packet), l))
  }

  lemma ReceiveCases(sa: Sa, crypto: Crypto, h: Header, packet: seq<byte>)
    requires sa.Valid() && Lawful(sa, crypto) && h.totLen == IPV4_HDR_LEN + |packet|
    requires !Receive(sa, crypto, h, packet).Malformed? && !Receive(sa, crypto, h, packet).Mismatched?
    ensures h.proto == PROTO_AH ==> |packet| >= AH_HDR_LEN
    ensures var l := Locate(h.proto, packet);
            if (!l.ah && !l.esp) || !Matches(sa, l, packet) then Receive(sa, crypto, h, packet) == Skipped
            else Opens(sa, crypto, h, packet, l)
  {
  }

  /** The trailer is there, and as long as it says. */
  predicate Cleanable(ctx: Context, ip: Header, pre: seq<byte>, plain: seq<byte>)
    requires ctx.ah ==> |pre| > 0
  {
    ctx.esp ==> |plain| >= ESP_TRL_LEN && (NextProto(ctx, ip, pre, plain) != PROTO_IPV4 ==> Trl(ctx, plain) <= |plain|)
  }

  /** What the cleanup stage made of header ip0 and segment pre + plain: header ip and segment data. */
  ghost predicate Cleaned(crypto: Crypto, ctx: Context, pre: seq<byte>, plain: seq<byte>,
                          ip0: Header, verdict: Verdict, ip: Header, data: seq<byte>)
    requires (ctx.ah ==> |pre| > 0) && Cleanable(ctx, ip0, pre, plain)
  {
    var proto, trl := NextProto(ctx, ip0, pre, plain), Trl(ctx, plain);
    && verdict == (if proto == PROTO_IPV4 then Tunnel else Accepted)
    && (verdict == Accepted ==>
          && trl <= |plain| <= |data| && ctx.hdrLen + trl <= ip0.totLen
          && ip == Summed(crypto, ip0.(proto := proto, ttl := ctx.ttl, tos := ctx.tos, frag := ctx.frag,
                                       totLen := ip0.totLen - (ctx.hdrLen + trl)))
          && data[..|plain| - trl] == plain[..|plain| - trl])
  }

  /** A packet that opens is one the cleanup stage can take. */
  lemma FinishReady(sa: Sa, crypto: Crypto, h: Header, packet: seq<byte>, l: Located, ctx: Context, masked: Header)
    requires Opens(sa, crypto, h, packet, l)
    requires ctx == Context(h.tos, h.frag, h.ttl, l.ah, l.esp, l.Len() + sa.IvLen(), 0)
    requires masked == if l.ah then Immutable(h) else h
    ensures (l.ah ==> Authentic(sa, crypto, h, packet)) ==>
              Cleanable(ctx, masked, Cleared(sa, packet)[..l.Len() + sa.IvLen()],
                        Plain(sa, crypto, Cleared(sa, packet), l))
  {
    OpenedBy(sa, crypto, h, Cleared(sa, packet), l, ctx);
  }

  lemma Concludes(sa: Sa, crypto: Crypto, h: Header, packet: seq<byte>, l: Located, ctx: Context, masked: Header,
                  verdict: Verdict, ip: Header, data: seq<byte>)
    requires Opens(sa, crypto, h, packet, l)
    requires ctx == Context(h.tos, h.frag, h.ttl, l.ah, l.esp, l.Len() + sa.IvLen(), 0)
    requires masked == (if l.ah then Immutable(h) else h) && (l.ah ==> Authentic(sa, crypto, h, packet))
    requires Cleanable(ctx, masked, Cleared(sa, packet)[..l.Len() + sa.IvLen()],
                       Plain(sa, crypto, Cleared(sa, packet), l))
    requires Cleaned(crypto, ctx, Cleared(sa, packet)[..l.Len() + sa.IvLen()],
                     Plain(sa, crypto, Cleared(sa, packet), l),
                     masked, verdict, ip, data)
    ensures Agrees(verdict, Receive(sa, crypto, h, packet), ip, data)
  {
    OpenedBy(sa, crypto, h, Cleared(sa, packet), l, ctx);
  }

  /** Masking the header twice changes nothing more. */
  lemma SameHash(sa: Sa, crypto: Crypto, h: Header, packet: seq<byte>)
    requires sa.ah.Some? && |packet| >= sa.AhLen()
    ensures Authentic(sa, crypto, Immutable(h), packet) == Authentic(sa, crypto, h, packet)
  {
    assert Immutable(Immutable(h)) == Immutable(h);
  }

  lemma ClassifiedParts(sa: Sa, crypto: Crypto, h: Header, was: seq<byte>, n: nat, ahSeq: nat, espSeq: nat,
                        ctx: Context, ip: Header, data: seq<byte>)
    returns (payload: seq<byte>, pad: seq<byte>, gap: seq<byte>, rest: seq<byte>)
    requires sa.Valid() && Lawful(sa, crypto) && RoomFor(sa, h, was) && n == h.totLen - IPV4_HDR_LEN
    requires ahSeq < 0x1_0000_0000 && espSeq < 0x1_0000_0000 && Classified(sa, h, was, n, ctx, ip, data)
    ensures |payload| == n && Pads(sa, payload, pad) && |gap| == 4
    ensures ctx == Context(h.tos, h.frag, h.ttl, sa.ah.Some?, sa.esp.Some?, sa.HdrLen(), sa.TrlLen(n))
    ensures ip == Masked(sa, OutHeader(sa, h, n))
    ensures data == Layout(sa, AhNext(sa, h.proto), [0, 0, 0, 0], Zeros(sa.IcvLen()), gap,
                           Body(sa, h.proto, payload, pad)) + rest
    ensures Sent(sa, crypto, h, was, n, ahSeq, espSeq) == Wire(sa, crypto, h, payload, pad, ahSeq, espSeq) + rest
  {
    payload, pad, gap, rest := SentParts(sa, crypto, h, was, n, ahSeq, espSeq);
    ClassifiedIs(sa, h, was, n, ctx, ip, data);
    ClassifiedData(sa, h, was, n, ctx, ip, data);
  }

  lemma ClassifiedIs(sa: Sa, h: Header, was: seq<byte>, n: nat, ctx: Context, ip: Header, data: seq<byte>)
    requires sa.Valid() && RoomFor(sa, h, was) && n == h.totLen - IPV4_HDR_LEN
    requires Classified(sa, h, was, n, ctx, ip, data)
    ensures ctx == Context(h.tos, h.frag, h.ttl, sa.ah.Some?, sa.esp.Some?, sa.HdrLen(), sa.TrlLen(n))
    ensures ip == Masked(sa, OutHeader(sa, h, n))
  {
  }

  lemma ClassifiedData(sa: Sa, h: Header, was: seq<byte>, n: nat, ctx: Context, ip: Header, data: seq<byte>)
    requires sa.Valid() && RoomFor(sa, h, was) && n == h.totLen - IPV4_HDR_LEN
    requires Classified(sa, h, was, n, ctx, ip, data)
    ensures data == Prepared(sa, h.proto, was, n, sa.TrlLen(n)) + was[sa.HdrLen() + n + sa.TrlLen(n)..]
  {
  }

  /** The association of one flow and its counters, which are 32 bits wide. */
  class Association {
    const sa: Sa
    const crypto: Crypto
    var ahSeq: nat
    var espSeq: nat

    ghost predicate Valid()
      reads this
    {
      sa.Valid() && Lawful(sa, crypto) && ahSeq < 0x1_0000_0000 && espSeq < 0x1_0000_0000
    }

    /** One number has been used up for each header. */
    predicate Advanced(ahWas: nat, espWas: nat)
      reads this
    {
      && ahSeq == (if sa.ah.Some? then NextSeq(ahWas) else ahWas)
      && espSeq == (if sa.esp.Some? then NextSeq(espWas) else espWas)
    }

    constructor (sa: Sa, crypto: Crypto)
      requires sa.Valid() && Lawful(sa, crypto)
      ensures Valid() && this.sa == sa && this.crypto == crypto && ahSeq == 0 && espSeq == 0
    {
      this.sa, this.crypto, ahSeq, espSeq := sa, crypto, 0, 0;
    }
  }

  /** The length of padding and trailer, by the division of the source. */
  method TrailerLen(sa: Sa, n: nat) returns (t: nat)
    requires sa.Valid() && sa.esp.Some?
    ensures t == sa.TrlLen(n)
  {
    EncodeLenExact(n + ESP_TRL_LEN, sa.esp.value.blockLen);
    t := EncodeLen(n + ESP_TRL_LEN, sa.esp.value.blockLen) - n;
  }

  /** What the receiver makes of the segment as it was sent. */
  lemma SentArrives(sa: Sa, crypto: Crypto, h: Header, was: seq<byte>, n: nat, ahSeq: nat, espSeq: nat, ip: Header,
                    data: seq<byte>)
    requires sa.Valid() && Lawful(sa, crypto) && RoomFor(sa, h, was) && n == h.totLen - IPV4_HDR_LEN && Fits(sa, h, n)
    requires ahSeq < 0x1_0000_0000 && espSeq < 0x1_0000_0000 && h.chksum == crypto.checksum(h.(chksum := 0))
    requires h.proto != PROTO_IPV4 && (sa.esp.None? ==> h.proto != PROTO_ESP)
    requires ip == Summed(crypto, OutHeader(sa, h, n)) && data == Sent(sa, crypto, h, was, n, ahSeq, espSeq)
    ensures |data| == |was| && ip.totLen == h.totLen + sa.HdrLen() + sa.TrlLen(n)
    ensures Receive(sa, crypto, ip, data[..ip.totLen - IPV4_HDR_LEN]) == Finished(h, was[..n])
  {
    var payload, pad, gap, rest := SentParts(sa, crypto, h, was, n, ahSeq, espSeq);
    WireSize(sa, crypto, h, payload, pad, ahSeq, espSeq, ip);
    RestoresPacket(sa, crypto, h, payload, pad, ahSeq, espSeq);
    var wire := Wire(sa, crypto, h, payload, pad, ahSeq, espSeq);
    assert (wire + rest)[..|wire|] == wire;
  }

  class Packet {
    var ip: Header
    var data: seq<byte>
    var tail: nat

    /** The payload moves behind the place of the headers. */
    method MakeRoom(sa: Sa, n: nat)
      requires sa.HdrLen() + n <= |data|
      modifies this`data
      ensures data == old(data)[..sa.AhLen()] + old(data)[sa.AhLen()..sa.HdrLen()]
                    + (old(data)[..n] + old(data)[sa.HdrLen() + n..])
    {
      data := Write(data, sa.HdrLen(), data[..n]);
    }

    /** One store: bytes b at offset |a| are overwritten by x. */
    method Store(ghost a: seq<byte>, ghost b: seq<byte>, ghost c: seq<byte>, o: nat, x: seq<byte>)
      requires data == a + b + c && |a| == o && |b| == |x|
      modifies this`data
      ensures data == a + x + c
    {
      data := data[..o] + x + data[o + |x|..];
    }

    /** ESP header in front of the payload: index and initialisation vector. */
    method StoreEspHeader(sa: Sa, ghost a: seq<byte>, ghost e: seq<byte>, ghost c: seq<byte>)
      requires sa.Valid() && sa.esp.Some? && |a| == sa.AhLen() && |e| == sa.EspLen() && data == a + e + c
      modifies this`data
      ensures data == a + EspBytes(sa, e[4..8]) + c
    {
      ghost var spi, iv := sa.esp.value.spi, sa.esp.value.iv;
      FirstFour(a, e, c);
      Store(a, e[..4], e[4..] + c, sa.AhLen(), sa.esp.value.spi);
      PastSeqNo(a, spi, e, c);
      Store(a + spi + e[4..8], e[8..], c, sa.AhLen() + ESP_HDR_LEN, sa.esp.value.iv);
      HeaderFirst(a, spi, e[4..8], iv, c);
    }

    /** ESP trailer: the last two bytes of the ciphered part. */
    method StoreEspTrailer(sa: Sa, padLen: byte, offset: nat, ghost h: seq<byte>, ghost payload: seq<byte>,
                           ghost pad: seq<byte>, ghost junk: seq<byte>, ghost rest: seq<byte>)
      requires sa.esp.Some? && padLen == |pad| && |junk| == ESP_TRL_LEN && offset == |h| + |payload| + |pad|
      requires data == h + (payload + (pad + junk + rest))
      modifies this`data, this`ip
      ensures ip == old(ip).(proto := PROTO_ESP)
      ensures data == h + (Body(sa, old(ip.proto), payload, pad) + rest)
    {
      TrailerLast(h, payload, pad + junk + rest, pad, junk, rest);
      BodyLast(h, payload, pad, [padLen, ip.proto], rest);
      Store(h + payload + pad, junk, rest, offset, [padLen, ip.proto]);
      ip := ip.(proto := PROTO_ESP);
    }

    /** ESP header and trailer around the payload that has been moved, and the protocol it hides. */
    method StoreEsp(sa: Sa, n: nat, t: nat, ghost was: seq<byte>)
      requires sa.Valid() && sa.esp.Some? && TrlOk(sa, t) && sa.HdrLen() + n + t <= |was|
      requires data == was[..sa.AhLen()] + was[sa.AhLen()..sa.HdrLen()] + (was[..n] + was[sa.HdrLen() + n..])
      modifies this`data, this`ip
      ensures ip == old(ip).(proto := PROTO_ESP)
      ensures data == was[..sa.AhLen()] + BehindAh(sa, old(ip.proto), was, n, t)
    {
      EspBehind(sa, was, n, t, ip.proto);
      ghost var a, e, payload, pad, junk, rest := EspParts(sa, was, n, t);
      StoreEspHeader(sa, a, e, payload + (pad + junk + rest));
      StoreEspTrailer(sa, t - ESP_TRL_LEN, sa.HdrLen() + n + t - ESP_TRL_LEN,
                      a + EspBytes(sa, e[4..8]), payload, pad, junk, rest);
    }

    /** AH header with an empty hash, and the mutable header fields cleared. */
    method StoreAh(sa: Sa, ghost a: seq<byte>, ghost c: seq<byte>)
      requires sa.Valid() && sa.ah.Some? && |a| == sa.AhLen() && data == a + c
      modifies this`data, this`ip
      ensures ip == Immutable(old(ip).(proto := PROTO_AH))
      ensures data == AhBytes(sa, old(ip.proto), [0, 0, 0, 0], Zeros(sa.IcvLen())) + c
    {
      QuarterExact(sa.ah.value.icvLen);
      StoreAhFields(ip.proto, 1 + sa.ah.value.icvLen / 4, sa.ah.value.spi, sa.ah.value.icvLen, a, c);
      ip := ip.(proto := PROTO_AH);
      ip := ip.(chksum := 0);
      ip := ip.(tos := 0);
      ip := ip.(frag := 0);
      ip := ip.(ttl := 0);
    }

    /** The header zeroed, then index, length and protocol stored. */
    method StoreAhFields(proto: byte, len: byte, spi: seq<byte>, icvLen: nat, ghost a: seq<byte>, ghost c: seq<byte>)
      requires |spi| == 4 && |a| == AH_HDR_LEN + icvLen && data == a + c
      modifies this`data
      ensures data == ([proto, len, 0, 0] + spi + [0, 0, 0, 0] + Zeros(icvLen)) + c
    {
      ghost var z := Zeros(AH_HDR_LEN + icvLen);
      assert [] + a + c == a + c;
      Store([], a, c, 0, Zeros(AH_HDR_LEN + icvLen));
      ZerosSplit(icvLen);
      AhFront(z, c);
      Store(z[..4], z[4..8], z[8..] + c, 4, spi);
      AhBack(0, 0, spi, z[8..], c);
      Store([0], [0], [0, 0] + spi + (z[8..] + c), 1, [len]);
      AhBack(0, len, spi, z[8..], c);
      Store([], [0], [len, 0, 0] + spi + (z[8..] + c), 0, [proto]);
      AhBack(proto, len, spi, z[8..], c);
      assert [proto, len, 0, 0] + spi + z[8..] == [proto, len, 0, 0] + spi + [0, 0, 0, 0] + Zeros(icvLen);
    }

    /** Payload moved, ESP header and trailer stored if there are any. */
    method MoveAndCipher(sa: Sa, n: nat, t: nat)
      requires sa.Valid() && TrlOk(sa, t) && sa.HdrLen() + n + t <= |data|
      modifies this`data, this`ip
      ensures ip == if sa.esp.Some? then old(ip).(proto := PROTO_ESP) else old(ip)
      ensures data == old(data)[..sa.AhLen()] + BehindAh(sa, old(ip.proto), old(data), n, t)
    {
      ghost var was := data;
      MakeRoom(sa, n);
      if sa.esp.Some? {
        StoreEsp(sa, n, t, was);
      } else {
        NoEspBehind(sa, was, n, ip.proto);
      }
    }

    /** Headers and trailer around n bytes of payload; t is the length of padding and trailer. */
    method Encapsulate(sa: Sa, n: nat, t: nat)
      requires sa.Valid() && TrlOk(sa, t) && sa.HdrLen() + n + t <= |data|
      modifies this`data, this`ip
      ensures ip == Masked(sa, old(ip).(proto := OuterProto(sa)))
      ensures data == Prepared(sa, old(ip.proto), old(data), n, t) + old(data)[sa.HdrLen() + n + t..]
    {
      ghost var was, proto := data, ip.proto;
      MoveAndCipher(sa, n, t);
      if sa.ah.Some? {
        StoreAh(sa, was[..sa.AhLen()], BehindAh(sa, proto, was, n, t));
      }
      PreparedIs(sa, was, n, t, proto);
    }

    /** Output classification: headers in front of the payload, padding and trailer behind it. */
    method OutClassify(sa: Sa, ghost n: nat) returns (code: Disposition, ctx: Context)
      requires sa.Valid() && RoomFor(sa, ip, data) && n == ip.totLen - IPV4_HDR_LEN && n <= tail <= |data|
      modifies this
      ensures Classified(sa, old(ip), old(data), n, ctx, ip, data)
      ensures ctx.hdrLen == sa.HdrLen() && ctx.trlLen == sa.TrlLen(n)
      ensures code == if old(tail) + ctx.hdrLen + ctx.trlLen <= old(|data|) then Posted else Drop
      ensures tail == if code == Posted then old(tail) + ctx.hdrLen + ctx.trlLen else old(tail)
    {
      var ipDataLen: nat := ip.totLen - IPV4_HDR_LEN;
      var hdrLen, trlLen := sa.HdrLen(), 0;
      ctx := Context(ip.tos, ip.frag, ip.ttl, sa.ah.Some?, sa.esp.Some?, hdrLen, 0);
      if sa.esp.Some? {
        trlLen := TrailerLen(sa, ipDataLen);
      }
      ghost var h, was := ip, data;
      Encapsulate(sa, ipDataLen, trlLen);
      ip := ip.(totLen := Wrap16(ip.totLen + hdrLen + trlLen));
      ctx := ctx.(trlLen := trlLen);
      IsClassified(sa, h, was, n, ctx, ip, data);
      assert |data| == old(|data|);
      if tail + hdrLen + trlLen > |data| {
        return Drop, ctx;
      }
      tail := tail + hdrLen + trlLen;
      return Posted, ctx;
    }

    /** Sequence number of the AH header. */
    method StoreAhSeq(sa: Sa, seqNo: seq<byte>, ghost next: byte, ghost was: seq<byte>, ghost icv: seq<byte>,
                      ghost c: seq<byte>)
      requires sa.Valid() && sa.ah.Some? && |seqNo| == 4 && |was| == 4 && |icv| == sa.IcvLen()
      requires data == AhBytes(sa, next, was, icv) + c
      modifies this`data
      ensures data == AhBytes(sa, next, seqNo, icv) + c
    {
      ghost var a := [next, 1 + Quarter(sa.ah.value.icvLen), 0, 0] + sa.ah.value.spi;
      Behind(a, was, icv, c);
      Store(a, was, icv + c, 8, seqNo);
      Behind(a, seqNo, icv, c);
    }

    /** Sequence number of the ESP header, which starts at offset |a|. */
    method StoreEspSeq(sa: Sa, seqNo: seq<byte>, ghost a: seq<byte>, ghost was: seq<byte>, ghost c: seq<byte>)
      requires sa.Valid() && sa.esp.Some? && |seqNo| == 4 && |was| == 4 && |a| == sa.AhLen()
      requires data == a + (EspBytes(sa, was) + c)
      modifies this`data
      ensures data == a + (EspBytes(sa, seqNo) + c)
    {
      Between(a, sa.esp.value.spi, was, sa.esp.value.iv, c);
      Store(a + sa.esp.value.spi, was, sa.esp.value.iv + c, sa.AhLen() + 4, seqNo);
      Between(a, sa.esp.value.spi, seqNo, sa.esp.value.iv, c);
    }

    /** Sequence numbers, in the order in which the association is served. */
    method OutSeq(assoc: Association, ghost next: byte, ghost gap: seq<byte>, ghost c: seq<byte>)
      requires assoc.Valid() && |gap| == 4
      requires data == AhBytes(assoc.sa, next, [0, 0, 0, 0], Zeros(assoc.sa.IcvLen())) + (EspBytes(assoc.sa, gap) + c)
      modifies this`data, assoc
      ensures assoc.Valid() && assoc.Advanced(old(assoc.ahSeq), old(assoc.espSeq))
      ensures data == AhBytes(assoc.sa, next, Be32(old(assoc.ahSeq)), Zeros(assoc.sa.IcvLen()))
                    + (EspBytes(assoc.sa, Be32(old(assoc.espSeq))) + c)
    {
      var sa := assoc.sa;
      var ahSeq, espSeq := Be32(assoc.ahSeq), Be32(assoc.espSeq);
      if sa.ah.Some? {
        StoreAhSeq(sa, ahSeq, next, [0, 0, 0, 0], Zeros(sa.IcvLen()), EspBytes(sa, gap) + c);
        assoc.ahSeq := NextSeq(assoc.ahSeq);
      }
      if sa.esp.Some? {
        StoreEspSeq(sa, espSeq, AhBytes(sa, next, ahSeq, Zeros(sa.IcvLen())), gap, c);
        assoc.espSeq := NextSeq(assoc.espSeq);
      }
    }

    /** The crypto operation of the output path: cipher first, then the hash over the ciphered packet. */
    method EncodeCipher(sa: Sa, crypto: Crypto, offset: nat, length: nat, ghost h: seq<byte>, ghost body: seq<byte>,
                        ghost rest: seq<byte>)
      requires sa.Valid() && Lawful(sa, crypto) && sa.esp.Some?
      requires data == h + body + rest && |h| == offset && |body| == length
      modifies this`data
      ensures data == h + Ciphered(sa, crypto, body) + rest
    {
      assert data[offset..offset + length] == body;
      var x := crypto.enc(sa.esp.value.iv, data[offset..offset + length]);
      Store(h, body, rest, offset, x);
    }

    method EncodeAuth(sa: Sa, crypto: Crypto, length: nat, ghost next: byte, ghost seqNo: seq<byte>,
                      ghost c: seq<byte>, ghost rest: seq<byte>)
      requires sa.Valid() && Lawful(sa, crypto) && sa.ah.Some? && |seqNo| == 4 && length == sa.AhLen() + |c|
      requires data == AhBytes(sa, next, seqNo, Zeros(sa.IcvLen())) + (c + rest)
      modifies this`data
      ensures data == AhBytes(sa, next, seqNo, crypto.mac(ip, AhBytes(sa, next, seqNo, Zeros(sa.IcvLen())) + c))
              + (c + rest)
    {
      ghost var ah := AhBytes(sa, next, seqNo, Zeros(sa.IcvLen()));
      Assoc(ah, c, rest);
      assert data[..length] == ah + c;
      var icv := crypto.mac(ip, data[..length]);
      ghost var a := [next, 1 + Quarter(sa.ah.value.icvLen), 0, 0] + sa.ah.value.spi + seqNo;
      Assoc(a, Zeros(sa.IcvLen()), c + rest);
      Store(a, Zeros(sa.IcvLen()), c + rest, AH_HDR_LEN, icv);
    }

    method OutCrypto(sa: Sa, crypto: Crypto, hdrLen: nat, length: nat, ghost next: byte,
                     ghost ahSeq: seq<byte>, ghost espSeq: seq<byte>, ghost body: seq<byte>, ghost rest: seq<byte>)
      requires sa.Valid() && Lawful(sa, crypto) && |ahSeq| == 4 && |espSeq| == 4
      requires hdrLen == sa.HdrLen() && length == hdrLen + |body|
      requires data == AhBytes(sa, next, ahSeq, Zeros(sa.IcvLen())) + (EspBytes(sa, espSeq) + (body + rest))
      modifies this`data
      ensures data == Secured(sa, crypto, ip, next, ahSeq, espSeq, body, rest)
    {
      ghost var ah, esp := AhBytes(sa, next, ahSeq, Zeros(sa.IcvLen())), EspBytes(sa, espSeq);
      if sa.esp.Some? {
        FourParts(ah, esp, body, rest);
        EncodeCipher(sa, crypto, hdrLen, length - hdrLen, ah + esp, body, rest);
      }
      FourParts(ah, esp, Ciphered(sa, crypto, body), rest);
      if sa.ah.Some? {
        EncodeAuth(sa, crypto, length, next, ahSeq, esp + Ciphered(sa, crypto, body), rest);
      }
    }

    /** Sequence numbers and the crypto operation, on a packet whose headers are in place. */
    method Secure(assoc: Association, hdrLen: nat, length: nat, ghost next: byte, ghost gap: seq<byte>,
                  ghost body: seq<byte>, ghost rest: seq<byte>)
      requires assoc.Valid() && |gap| == 4 && hdrLen == assoc.sa.HdrLen() && length == hdrLen + |body|
      requires data == Layout(assoc.sa, next, [0, 0, 0, 0], Zeros(assoc.sa.IcvLen()), gap, body) + rest
      modifies this`data, assoc
      ensures assoc.Valid() && assoc.Advanced(old(assoc.ahSeq), old(assoc.espSeq))
      ensures data == Secured(assoc.sa, assoc.crypto, ip, next, Be32(old(assoc.ahSeq)), Be32(old(assoc.espSeq)), body,
                              rest)
    {
      ghost var ahSeq, espSeq := Be32(assoc.ahSeq), Be32(assoc.espSeq);
      LayoutParts(assoc.sa, next, [0, 0, 0, 0], Zeros(assoc.sa.IcvLen()), gap, body, rest);
      OutSeq(assoc, next, gap, body + rest);
      OutCrypto(assoc.sa, assoc.crypto, hdrLen, length, next, ahSeq, espSeq, body, rest);
    }

    /** Output cleanup: the saved fields come back and the checksum is computed. */
    method OutFinish(ctx: Context, crypto: Crypto, ok: bool) returns (code: Disposition)
      modifies this`ip
      ensures code == if ok then Continue else Drop
      ensures ip == if ok then Summed(crypto, old(ip).(ttl := ctx.ttl, tos := ctx.tos, frag := ctx.frag)) else old(ip)
    {
      if !ok {
        return Drop;
      }
      ip := ip.(ttl := ctx.ttl);
      ip := ip.(tos := ctx.tos);
      ip := ip.(frag := ctx.frag);
      ip := ip.(chksum := 0);
      ip := ip.(chksum := crypto.checksum(ip));
      return Continue;
    }

    method Seal(assoc: Association, ctx: Context, n: nat, ghost h: Header, ghost payload: seq<byte>,
                ghost pad: seq<byte>, ghost gap: seq<byte>, ghost rest: seq<byte>) returns (code: Disposition)
      requires assoc.Valid() && |payload| == n && Pads(assoc.sa, payload, pad) && |gap| == 4
      requires ctx == Context(h.tos, h.frag, h.ttl, assoc.sa.ah.Some?, assoc.sa.esp.Some?, assoc.sa.HdrLen(),
                              assoc.sa.TrlLen(n))
      requires ip == Masked(assoc.sa, OutHeader(assoc.sa, h, n))
      requires data == Layout(assoc.sa, AhNext(assoc.sa, h.proto), [0, 0, 0, 0], Zeros(assoc.sa.IcvLen()), gap,
                              Body(assoc.sa, h.proto, payload, pad)) + rest
      modifies this`data, this`ip, assoc
      ensures code == Continue && assoc.Valid() && assoc.Advanced(old(assoc.ahSeq), old(assoc.espSeq))
      ensures ip == Summed(assoc.crypto, OutHeader(assoc.sa, h, n))
      ensures data == Wire(assoc.sa, assoc.crypto, h, payload, pad, old(assoc.ahSeq), old(assoc.espSeq)) + rest
    {
      WireIs(assoc.sa, assoc.crypto, h, payload, pad, assoc.ahSeq, assoc.espSeq, ip, rest);
      Secure(assoc, ctx.hdrLen, ctx.hdrLen + n + ctx.trlLen, AhNext(assoc.sa, h.proto), gap,
             Body(assoc.sa, h.proto, payload, pad), rest);
      code := OutFinish(ctx, assoc.crypto, true);
    }

    /**
     The output path behind classification, from a packet as OutClassify leaves it: the
     segment then holds the wire format, and the header has its fields back.
     */
    method OutComplete(assoc: Association, ctx: Context, n: nat, ghost h: Header,
                       ghost was: seq<byte>) returns (code: Disposition)
      requires assoc.Valid() && RoomFor(assoc.sa, h, was) && n == h.totLen - IPV4_HDR_LEN
      requires Classified(assoc.sa, h, was, n, ctx, ip, data)
      modifies this`data, this`ip, assoc
      ensures code == Continue && assoc.Valid() && assoc.Advanced(old(assoc.ahSeq), old(assoc.espSeq))
      ensures ip == Summed(assoc.crypto, OutHeader(assoc.sa, h, n))
      ensures data == Sent(assoc.sa, assoc.crypto, h, was, n, old(assoc.ahSeq), old(assoc.espSeq))
    {
      ghost var payload, pad, gap, rest :=
        ClassifiedParts(assoc.sa, assoc.crypto, h, was, n, assoc.ahSeq, assoc.espSeq, ctx, ip, data);
      code := Seal(assoc, ctx, n, h, payload, pad, gap, rest);
    }

    // -------------------------------------------------------------- input

    /** Input classification: the headers found, and whether the association knows them. */
    method InClassify(sa: Sa, ghost packet: seq<byte>) returns (skip: bool, ctx: Context, l: Located)
      requires sa.Valid() && IPV4_HDR_LEN <= ip.totLen <= IPV4_HDR_LEN + |data|
      requires packet == data[..ip.totLen - IPV4_HDR_LEN]
      requires ip.proto == PROTO_AH ==> ip.totLen >= IPV4_HDR_LEN + AH_HDR_LEN
      modifies this`ip
      ensures l == Locate(old(ip.proto), packet)
      ensures skip <==> (!l.ah && !l.esp) || !Matches(sa, l, packet)
      ensures ctx == Context(old(ip.tos), old(ip.frag), old(ip.ttl), l.ah, l.esp, l.Len() + sa.IvLen(), 0)
      ensures ip == if !skip && l.ah then Immutable(old(ip)) else old(ip)
    {
      var found := data[..ip.totLen - IPV4_HDR_LEN];
      l := Locate(ip.proto, found);
      ctx := Context(ip.tos, ip.frag, ip.ttl, l.ah, l.esp, l.Len() + sa.IvLen(), 0);
      if (!l.ah && !l.esp) || !Matches(sa, l, found) {
        return true, ctx, l;
      }
      if l.ah {
        ip := ip.(chksum := 0);
        ip := ip.(tos := 0);
        ip := ip.(frag := 0);
        ip := ip.(ttl := 0);
      }
      return false, ctx, l;
    }

    /** The hash is taken out, computed again and compared. */
    method DecodeAuth(sa: Sa, crypto: Crypto, n: nat) returns (ok: bool)
      requires sa.Valid() && sa.ah.Some? && sa.AhLen() <= n <= |data| && ip == Immutable(ip)
      modifies this`data
      ensures ok == Authentic(sa, crypto, ip, old(data)[..n])
      ensures data == Cleared(sa, old(data)[..n]) + old(data)[n..]
    {
      ghost var was := data;
      var icv := data[AH_HDR_LEN..AH_HDR_LEN + sa.IcvLen()];
      ClearParts(sa, was, n);
      Store(was[..AH_HDR_LEN], was[AH_HDR_LEN..sa.AhLen()], was[sa.AhLen()..], AH_HDR_LEN, Zeros(sa.IcvLen()));
      ok := crypto.mac(ip, data[..n]) == icv;
    }

    method DecodeCipher(sa: Sa, crypto: Crypto, n: nat, l: Located, ghost d: seq<byte>, ghost rest: seq<byte>)
      requires sa.Valid() && Lawful(sa, crypto) && l.esp && l.Len() + sa.IvLen() <= n == |d| && data == d + rest
      modifies this`data
      ensures data == d[..l.Len() + sa.IvLen()] + Plain(sa, crypto, d, l) + rest
    {
      var hdr := l.Len() + sa.IvLen();
      TakeParts(d, rest, l.Len(), hdr);
      var x := crypto.dec(data[l.Len()..hdr], data[hdr..n]);
      Store(d[..hdr], d[hdr..], rest, hdr, x);
    }

    /** The crypto operation of the input path: the hash first, then the cipher. */
    method InCrypto(sa: Sa, crypto: Crypto, n: nat, l: Located, ghost h: Header, ghost packet: seq<byte>,
                    ghost rest: seq<byte>)
      returns (ok: bool)
      requires sa.Valid() && Lawful(sa, crypto) && l.ah == sa.ah.Some? && l.esp == sa.esp.Some?
      requires data == packet + rest && n == |packet| && (l.ah ==> ip == Immutable(h))
      requires sa.AhLen() <= n && l.Len() + sa.IvLen() <= n
      modifies this`data
      ensures ok == (l.ah ==> Authentic(sa, crypto, h, packet))
      ensures data == Cleared(sa, packet)[..l.Len() + sa.IvLen()] + Plain(sa, crypto, Cleared(sa, packet), l) + rest
    {
      ghost var d := Cleared(sa, packet);
      ok := true;
      assert data[..n] == packet && data[n..] == rest;
      if l.ah {
        ok := DecodeAuth(sa, crypto, n);
        SameHash(sa, crypto, h, packet);
      }
      assert data == d + rest;
      if l.esp {
        DecodeCipher(sa, crypto, n, l, d, rest);
      } else {
        NoCipher(d, rest, l.Len() + sa.IvLen());
      }
    }

    /** The payload moves to the front; as in the source, the length of the header is moved along behind it. */
    method MoveBack(hdrLen: nat, length: nat, ghost pre: seq<byte>, ghost plain: seq<byte>, ghost rest: seq<byte>)
      requires data == pre + plain + rest && |pre| == hdrLen && hdrLen + length <= |data|
      modifies this`data
      ensures |data| == old(|data|)
      ensures forall m :: 0 <= m <= |plain| && m <= length ==> data[..m] == plain[..m]
    {
      ghost var was := data;
      data := data[hdrLen..hdrLen + length] + data[length..];
      forall m | 0 <= m <= |plain| && m <= length
        ensures data[..m] == plain[..m]
      {
        assert forall k :: 0 <= k < m ==> data[k] == was[hdrLen + k] == plain[k];
      }
    }

    /** Input cleanup: protocol and length from the headers, the saved fields back, the payload to the front. */
    method InFinish(crypto: Crypto, ctx: Context, ok: bool, ghost pre: seq<byte>, ghost plain: seq<byte>,
                    ghost rest: seq<byte>)
      returns (verdict: Verdict)
      requires data == pre + plain + rest && |pre| == ctx.hdrLen && ip.totLen == IPV4_HDR_LEN + |pre| + |plain|
      requires |pre| + |plain| <= tail && ip.totLen <= |data| && (ctx.ah ==> |pre| > 0)
      requires ok ==> Cleanable(ctx, ip, pre, plain)
      modifies this
      ensures |data| == old(|data|)
      ensures if ok then Cleaned(crypto, ctx, pre, plain, old(ip), verdict, ip, data) else verdict == Dropping
      ensures verdict == Accepted ==> tail == old(tail) - (old(ip.totLen) - ip.totLen)
    {
      if !ok {
        return Dropping;
      }
      var trlLen: nat := 0;
      if ctx.ah {
        ip := ip.(proto := data[0]);
      }
      if ctx.esp {
        var end := ip.totLen - IPV4_HDR_LEN;
        ip := ip.(proto := data[end - 1]);
        var padLen: int := data[end - 2];
        trlLen := padLen + ESP_TRL_LEN;
      }
      if ip.proto == PROTO_IPV4 {
        return Tunnel;
      }
      ip := ip.(totLen := ip.totLen - (ctx.hdrLen + trlLen));
      ip := ip.(ttl := ctx.ttl);
      ip := ip.(tos := ctx.tos);
      ip := ip.(frag := ctx.frag);
      ip := ip.(chksum := 0);
      ip := ip.(chksum := crypto.checksum(ip));
      MoveBack(ctx.hdrLen, ip.totLen, pre, plain, rest);
      tail := tail - (ctx.hdrLen + trlLen);
      return Accepted;
    }

    /** The input path behind classification. */
    method InComplete(sa: Sa, crypto: Crypto, ctx: Context, l: Located, ghost h: Header, ghost packet: seq<byte>,
                      ghost rest: seq<byte>)
      returns (verdict: Verdict)
      requires Opens(sa, crypto, h, packet, l) && data == packet + rest && |packet| <= tail <= |data|
      requires h.totLen <= |data|
      requires ctx == Context(h.tos, h.frag, h.ttl, l.ah, l.esp, l.Len() + sa.IvLen(), 0)
      requires ip == if l.ah then Immutable(h) else h
      modifies this
      ensures Agrees(verdict, Receive(sa, crypto, h, packet), ip, data)
      ensures verdict == Accepted ==> tail == old(tail) - (h.totLen - ip.totLen)
    {
      ghost var d, hdr := Cleared(sa, packet), l.Len() + sa.IvLen();
      ghost var plain, masked := Plain(sa, crypto, d, l), ip;
      FinishReady(sa, crypto, h, packet, l, ctx, masked);
      var ok := InCrypto(sa, crypto, ip.totLen - IPV4_HDR_LEN, l, h, packet, rest);
      verdict := InFinish(crypto, ctx, ok, d[..hdr], plain, rest);
      if ok {
        Concludes(sa, crypto, h, packet, l, ctx, masked, verdict, ip, data);
      }
    }

    /** The input path: the packet becomes what Receive says of it. */
    method Input(sa: Sa, crypto: Crypto) returns (verdict: Verdict)
      requires sa.Valid() && Lawful(sa, crypto) && IPV4_HDR_LEN <= ip.totLen <= IPV4_HDR_LEN + tail && tail <= |data|
      requires ip.totLen <= |data|
      requires !Receive(sa, crypto, ip, data[..ip.totLen - IPV4_HDR_LEN]).Malformed?
      requires !Receive(sa, crypto, ip, data[..ip.totLen - IPV4_HDR_LEN]).Mismatched?
      modifies this
      ensures Agrees(verdict, Receive(sa, crypto, old(ip), old(data)[..old(ip.totLen) - IPV4_HDR_LEN]), ip, data)
      ensures verdict == Accepted ==> tail == old(tail) - (old(ip.totLen) - ip.totLen)
      ensures verdict == Skipping ==> ip == old(ip) && data == old(data) && tail == old(tail)
    {
      ghost var h, packet, rest := ip, data[..ip.totLen - IPV4_HDR_LEN], data[ip.totLen - IPV4_HDR_LEN..];
      assert data == packet + rest;
      ReceiveCases(sa, crypto, h, packet);
      var skip, ctx, l := InClassify(sa, packet);
      if skip {
        return Skipping;
      }
      verdict := InComplete(sa, crypto, ctx, l, h, packet, rest);
    }

    /** The output path, with room at the tail: the segment then holds the wire format. */
    method Output(assoc: Association, ghost n: nat)
      requires assoc.Valid() && RoomFor(assoc.sa, ip, data) && n == ip.totLen - IPV4_HDR_LEN && n <= tail
      requires tail + assoc.sa.HdrLen() + assoc.sa.TrlLen(n) <= |data|
      modifies this, assoc
      ensures assoc.Valid() && assoc.Advanced(old(assoc.ahSeq), old(assoc.espSeq))
      ensures ip == Summed(assoc.crypto, OutHeader(assoc.sa, old(ip), n))
      ensures data == Sent(assoc.sa, assoc.crypto, old(ip), old(data), n, old(assoc.ahSeq), old(assoc.espSeq))
      ensures tail == old(tail) + assoc.sa.HdrLen() + assoc.sa.TrlLen(n)
    {
      var ipDataLen: nat := ip.totLen - IPV4_HDR_LEN;
      ghost var h, was := ip, data;
      var code, ctx := OutClassify(assoc.sa, n);
      code := OutComplete(assoc, ctx, ipDataLen, h, was);
    }

    /** The input path, on a packet that the receiver finishes. */
    method Restore(sa: Sa, crypto: Crypto, ghost h: Header, ghost payload: seq<byte>) returns (verdict: Verdict)
      requires sa.Valid() && Lawful(sa, crypto) && IPV4_HDR_LEN <= ip.totLen <= IPV4_HDR_LEN + tail && tail <= |data|
      requires ip.totLen <= |data|
      requires Receive(sa, crypto, ip, data[..ip.totLen - IPV4_HDR_LEN]) == Finished(h, payload)
      modifies this
      ensures verdict == Accepted && ip == h && tail == old(tail) - (old(ip.totLen) - h.totLen)
      ensures |payload| <= |data| && data[..|payload|] == payload
    {
      verdict := Input(sa, crypto);
    }

    /** The input path, on a packet as the output path left it. */
    method Arrive(sa: Sa, crypto: Crypto, ghost h: Header, ghost was: seq<byte>, ghost n: nat, ghost ahSeq: nat,
                  ghost espSeq: nat)
      returns (verdict: Verdict)
      requires sa.Valid() && Lawful(sa, crypto) && RoomFor(sa, h, was) && n == h.totLen - IPV4_HDR_LEN && Fits(sa, h, n)
      requires ahSeq < 0x1_0000_0000 && espSeq < 0x1_0000_0000 && h.chksum == crypto.checksum(h.(chksum := 0))
      requires h.proto != PROTO_IPV4 && (sa.esp.None? ==> h.proto != PROTO_ESP)
      requires ip == Summed(crypto, OutHeader(sa, h, n)) && data == Sent(sa, crypto, h, was, n, ahSeq, espSeq)
      requires n + sa.HdrLen() + sa.TrlLen(n) <= tail <= |was| && h.totLen + sa.HdrLen() + sa.TrlLen(n) <= |was|
      modifies this
      ensures verdict == Accepted && ip == h && tail == old(tail) - (sa.HdrLen() + sa.TrlLen(n))
      ensures n <= |data| && data[..n] == was[..n]
    {
      SentArrives(sa, crypto, h, was, n, ahSeq, espSeq, ip, data);
      verdict := Restore(sa, crypto, h, was[..n]);
    }

    /**
     Out through one end of an association and in at the other: a packet with a right checksum
     and room in its segment comes back as it was, header, payload and length.
     */
    method ThereAndBack(assoc: Association) returns (verdict: Verdict)
      requires assoc.Valid() && RoomFor(assoc.sa, ip, data) && Fits(assoc.sa, ip, ip.totLen - IPV4_HDR_LEN)
      requires ip.totLen - IPV4_HDR_LEN <= tail
      requires tail + assoc.sa.HdrLen() + assoc.sa.TrlLen(ip.totLen - IPV4_HDR_LEN) <= |data|
      requires ip.totLen + assoc.sa.HdrLen() + assoc.sa.TrlLen(ip.totLen - IPV4_HDR_LEN) <= |data|
      requires ip.chksum == assoc.crypto.checksum(ip.(chksum := 0))
      requires ip.proto != PROTO_IPV4 && (assoc.sa.esp.None? ==> ip.proto != PROTO_ESP)
      modifies this, assoc
      ensures verdict == Accepted && ip == old(ip) && tail == old(tail)
      ensures ip.totLen - IPV4_HDR_LEN <= |data|
      ensures data[..ip.totLen - IPV4_HDR_LEN] == old(data)[..ip.totLen - IPV4_HDR_LEN]
    {
      ghost var h, was, n, ahSeq, espSeq := ip, data, ip.totLen - IPV4_HDR_LEN, assoc.ahSeq, assoc.espSeq;
      Output(assoc, n);
      verdict := Arrive(assoc.sa, assoc.crypto, h, was, n, ahSeq, espSeq);
    }
  }
}
