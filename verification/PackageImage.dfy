/** Laying out packages: the image builders, and what the input loop makes of the result. */
module PackageImages {
  import opened Bytes
  import opened Options
  import opened PkgHeaders
  import opened Framing
  import W = WritableSequences

  type Serializer = (U16, Message) -> Buffer

  /** `headerSpace` is the extra room some senders put into the header buffer. */
  datatype Package =
    | MessagePackage(id: U16, msg: Message, attached: Buffer, headerSpace: Buffer)
    | HeartbeatRequestPackage
    | HeartbeatReplyPackage

  /** The header of a message package. Sizes are cut to their fields. */
  function MessageHeader(id: U16, bodySize: nat, attachedSize: nat, headerSpace: nat): (h: PkgHeader)
  {
    Make(PKG_CONTENT_MESSAGE, id, bodySize % 0x1_0000_0000, attachedSize % 0x1_0000_0000)
      .(headerSizeDwords := (IMAGE_SIZE_DWORDS + headerSpace / 4) % 0x100)
  }

  // ---------- The builders ----------

  /** Header and message in one buffer. */
  method MakePackageImage(id: U16, body: Buffer, attachedSize: nat) returns (buf: array<Byte>)
    requires |body| < 0x1_0000_0000
    ensures buf[..] == Encode(MessageHeader(id, |body|, attachedSize, 0)) + body
  {
    var header := Make(PKG_CONTENT_MESSAGE, id, |body| % 0x1_0000_0000, attachedSize % 0x1_0000_0000);
    buf := new Byte[HEADER_SIZE + header.contentSize];
    W.Memcpy(buf, 0, Encode(header));
    W.Memcpy(buf, HEADER_SIZE, body);
    assert buf[..] == buf[..HEADER_SIZE] + buf[HEADER_SIZE..];
    assert buf[0..HEADER_SIZE] == buf[..HEADER_SIZE];
  }

  /** Header and message in two buffers; the extra space of the first is not initialized. */
  method MakeSeparatePackageImage(id: U16, body: Buffer, attachedSize: nat, headerSpace: nat)
    returns (headerBuf: array<Byte>, msgBuf: array<Byte>)
    requires |body| < 0x1_0000_0000
    requires headerSpace % 4 == 0
    ensures headerBuf.Length == HEADER_SIZE + headerSpace
    ensures headerBuf[..HEADER_SIZE] == Encode(MessageHeader(id, |body|, attachedSize, headerSpace))
    ensures msgBuf[..] == body
  {
    var header := Make(PKG_CONTENT_MESSAGE, id, |body| % 0x1_0000_0000, attachedSize % 0x1_0000_0000);
    header := header.(headerSizeDwords := (header.headerSizeDwords + headerSpace / 4) % 0x100);
    headerBuf := new Byte[HEADER_SIZE + headerSpace];
    W.Memcpy(headerBuf, 0, Encode(header));
    msgBuf := new Byte[header.contentSize];
    W.Memcpy(msgBuf, 0, body);
    assert headerBuf[0..HEADER_SIZE] == headerBuf[..HEADER_SIZE];
    assert msgBuf[0..|body|] == msgBuf[..];
  }

  /** The header says where the message starts exactly as long as the header, in dwords,
      fits its one-byte field. */
  lemma HeaderSpaceFits(id: U16, bodySize: nat, attachedSize: nat, headerSpace: nat)
    requires headerSpace % 4 == 0
    ensures MessageHeader(id, bodySize, attachedSize, headerSpace).AdvertizedHeaderSize() == HEADER_SIZE + headerSpace
       <==> IMAGE_SIZE_DWORDS + headerSpace / 4 <= 255
  {
    var dwords := IMAGE_SIZE_DWORDS + headerSpace / 4;
    assert HEADER_SIZE + headerSpace == 4 * dwords;
    assert dwords % 0x100 <= dwords && (dwords % 0x100 == dwords <==> dwords <= 255);
  }

  // ---------- What is sent for a package ----------

  function ImageOf(ser: Serializer, pkg: Package): (b: Buffer)
  {
    match pkg
    case MessagePackage(id, msg, attached, space) =>
      Encode(MessageHeader(id, |ser(id, msg)|, |attached|, |space|)) + space + ser(id, msg) + attached
    case HeartbeatRequestPackage => Encode(Make(PKG_CONTENT_HEARTBEAT_REQUEST, 0, 0, 0))
    case HeartbeatReplyPackage => Encode(Make(PKG_CONTENT_HEARTBEAT_REPLY, 0, 0, 0))
  }

  function EventOf(pkg: Package): (e: Event)
  {
    match pkg
    case MessagePackage(id, msg, attached, _) => MessageArrived(id, msg, attached)
    case HeartbeatRequestPackage => HeartbeatRequested
    case HeartbeatReplyPackage => HeartbeatReplied
  }

  function EventsOf(pkgs: seq<Package>): (r: seq<Event>)
    ensures |r| == |pkgs|
  {
    if pkgs == [] then [] else [EventOf(pkgs[0])] + EventsOf(pkgs[1..])
  }

  function Stream(ser: Serializer, pkgs: seq<Package>): (b: Buffer)
  {
    if pkgs == [] then [] else ImageOf(ser, pkgs[0]) + Stream(ser, pkgs[1..])
  }

  /** A package both ends can handle: a known message that parses back to itself, within the
      receiver's size limit and the fields of the header, and taken by the consumer. */
  predicate Fits(p: Protocol, ser: Serializer, pkg: Package)
  {
    match pkg
    case MessagePackage(id, msg, attached, space) =>
      && p.known(id) && p.parse(id, ser(id, msg)) == Some(msg) && !p.throws(EventOf(pkg))
      && |ser(id, msg)| <= p.maxValidPackageSize
      && |attached| < 0x1_0000_0000
      && |space| % 4 == 0 && IMAGE_SIZE_DWORDS + |space| / 4 <= 255
    case _ => true
  }

  ghost predicate AllFit(p: Protocol, ser: Serializer, pkgs: seq<Package>)
  {
    forall i :: 0 <= i < |pkgs| ==> Fits(p, ser, pkgs[i])
  }

  // ---------- What the input loop makes of it ----------

  ghost function HeaderOf(ser: Serializer, pkg: Package): PkgHeader
  {
    match pkg
    case MessagePackage(id, msg, attached, space) => MessageHeader(id, |ser(id, msg)|, |attached|, |space|)
    case HeartbeatRequestPackage => Make(PKG_CONTENT_HEARTBEAT_REQUEST, 0, 0, 0)
    case HeartbeatReplyPackage => Make(PKG_CONTENT_HEARTBEAT_REPLY, 0, 0, 0)
  }

  lemma ImageHeader(p: Protocol, ser: Serializer, pkg: Package, s: Buffer)
    requires Fits(p, ser, pkg) && ImageOf(ser, pkg) <= s
    ensures |s| >= HEADER_SIZE && Decode(s) == HeaderOf(ser, pkg)
    ensures HeaderOf(ser, pkg).PackageSize() == |ImageOf(ser, pkg)|
  {
    hide Encode, Decode;
    var h := HeaderOf(ser, pkg);
    assert s == Encode(h) + s[HEADER_SIZE..];
    DecodeOfEncode(h, s[HEADER_SIZE..]);
    if pkg.MessagePackage? {
      HeaderSpaceFits(pkg.id, |ser(pkg.id, pkg.msg)|, |pkg.attached|, |pkg.headerSpace|);
    }
  }

  /** The head package of a stream is taken whole and understood. */
  lemma HeadIsConsumed(p: Protocol, ser: Serializer, pkg: Package, s: Buffer)
    requires Fits(p, ser, pkg) && ImageOf(ser, pkg) <= s
    ensures ParseOne(p, s) == Consumed(|ImageOf(ser, pkg)|, EventOf(pkg))
  {
    hide Encode, Decode;
    ImageHeader(p, ser, pkg, s);
    if pkg.MessagePackage? {
      MessageParts(ser, pkg, s);
      HeaderSpaceFits(pkg.id, |ser(pkg.id, pkg.msg)|, |pkg.attached|, |pkg.headerSpace|);
    }
  }

  lemma MessageParts(ser: Serializer, pkg: Package, s: Buffer)
    requires pkg.MessagePackage? && ImageOf(ser, pkg) <= s
    ensures var body := ser(pkg.id, pkg.msg);
            var start := HEADER_SIZE + |pkg.headerSpace|;
            && start + |body| + |pkg.attached| == |ImageOf(ser, pkg)|
            && s[start..start + |body|] == body
            && s[start + |body|..start + |body| + |pkg.attached|] == pkg.attached
  {
    hide Encode;
    var image := ImageOf(ser, pkg);
    var start, body := HEADER_SIZE + |pkg.headerSpace|, ser(pkg.id, pkg.msg);
    assert s[..|image|] == image;
    assert s[start..start + |body|] == image[start..start + |body|];
    assert s[start + |body|..|image|] == image[start + |body|..];
  }

  /** What is on the wire for a message: a header of type 0 that tells the sizes, the extra
      header space, the message and the attachment. */
  lemma MessageLayout(ser: Serializer, id: U16, msg: Message, attached: Buffer, space: Buffer)
    ensures var b := ImageOf(ser, MessagePackage(id, msg, attached, space));
            var n, size := 12 + |space|, |ser(id, msg)|;
            && |b| == n + size + |attached|
            && LaidOut(PkgHeader(0, (3 + |space| / 4) % 256, id, size % 4294967296, |attached| % 4294967296), b)
            && b[12..n] == space && b[n..n + size] == ser(id, msg) && b[n + size..] == attached
  {
    var h := HeaderOf(ser, MessagePackage(id, msg, attached, space));
    WireLayout(h, []);
    hide Encode, LaidOut;
    LaidOutInFront(h, Encode(h), space + ser(id, msg) + attached);
    FourParts(Encode(h), space, ser(id, msg), attached);
  }

  lemma FourParts(head: Buffer, space: Buffer, body: Buffer, attached: Buffer)
    requires |head| == 12
    ensures var b := head + space + body + attached;
            var n := 12 + |space|;
            && b == head + (space + body + attached) && |b| == n + |body| + |attached|
            && b[12..n] == space && b[n..n + |body|] == body && b[n + |body|..] == attached
  {
  }

  lemma LaidOutInFront(h: PkgHeader, b: Buffer, more: Buffer)
    requires LaidOut(h, b)
    ensures LaidOut(h, b + more)
  {
  }

  /** What is on the wire for a heartbeat: a header of type 1 or 2 and nothing else. */
  lemma HeartbeatLayout(ser: Serializer)
    ensures ImageOf(ser, HeartbeatRequestPackage) == [1, 3, 0, 0, 0, 0, 0, 0, 0, 0, 0, 0]
    ensures ImageOf(ser, HeartbeatReplyPackage) == [2, 3, 0, 0, 0, 0, 0, 0, 0, 0, 0, 0]
  {
    assert Word32(0) == [0, 0, 0, 0];
  }

  /** Less than a whole package is not touched. */
  lemma PartIsKept(p: Protocol, ser: Serializer, pkg: Package, part: Buffer)
    requires Fits(p, ser, pkg) && part < ImageOf(ser, pkg)
    ensures ParseOne(p, part) == NeedsMoreData
  {
    var image := ImageOf(ser, pkg);
    ImageHeader(p, ser, pkg, image);
    HeadIsWhole(p, ser, pkg);
    hide Encode, Decode, ImageOf, Fits, HeaderOf;
    if |part| >= HEADER_SIZE {
      assert image == part + image[|part|..];
      DecodePrefix(part, image[|part|..]);
    }
  }

  lemma HeadIsWhole(p: Protocol, ser: Serializer, pkg: Package)
    requires Fits(p, ser, pkg)
    ensures var h := HeaderOf(ser, pkg);
            if pkg.MessagePackage? then h.pkgContentType == PKG_CONTENT_MESSAGE && h.contentSize <= p.maxValidPackageSize
            else h.PackageSize() == HEADER_SIZE
  {
  }

  /** The result of a run over part of a stream of packages. */
  ghost predicate Delivers(p: Protocol, ser: Serializer, pkgs: seq<Package>, part: Buffer, k: nat, f: Fed)
  {
    && k <= |pkgs|
    && f.events == EventsOf(pkgs[..k]) && f.stop == Waiting
    && Stream(ser, pkgs[..k]) + f.rest == part
    && (k < |pkgs| ==> f.rest < ImageOf(ser, pkgs[k]))
    && (k == |pkgs| <==> part == Stream(ser, pkgs))
  }

  lemma DeliversOneMore(p: Protocol, ser: Serializer, pkgs: seq<Package>, part: Buffer, k: nat, f: Fed)
    requires pkgs != []
    requires Delivers(p, ser, pkgs[1..], part, k, f)
    ensures Delivers(p, ser, pkgs, ImageOf(ser, pkgs[0]) + part, k + 1, f.(events := [EventOf(pkgs[0])] + f.events))
  {
    hide ImageOf;
    assert pkgs[..k + 1][1..] == pkgs[1..][..k];
    var image := ImageOf(ser, pkgs[0]);
    assert image + (Stream(ser, pkgs[1..][..k]) + f.rest) == image + Stream(ser, pkgs[1..][..k]) + f.rest;
    if image + part == image + Stream(ser, pkgs[1..]) {
      assert part == (image + part)[|image|..];
      assert Stream(ser, pkgs[1..]) == (image + Stream(ser, pkgs[1..]))[|image|..];
    }
  }

  /** Any part of a stream of packages delivers the packages it holds in full, in order,
      and keeps the rest; nothing in it is ever refused. */
  lemma {:induction false} PartDelivers(p: Protocol, ser: Serializer, pkgs: seq<Package>, part: Buffer) returns (k: nat)
    requires AllFit(p, ser, pkgs) && part <= Stream(ser, pkgs)
    ensures Delivers(p, ser, pkgs, part, k, Loop(p, part))
    decreases |pkgs|
  {
    assert ParseOne(p, []) == NeedsMoreData;
    hide ParseOne, ImageOf;
    k := 0;
    assert pkgs[..0] == [];
    if pkgs == [] {
      assert part == [];
    } else {
      var image := ImageOf(ser, pkgs[0]);
      if |part| < |image| {
        assert part == image[..|part|];
        PartIsKept(p, ser, pkgs[0], part);
      } else {
        var tail := part[|image|..];
        PartTail(image, Stream(ser, pkgs[1..]), part);
        HeadIsConsumed(p, ser, pkgs[0], part);
        k := PartDelivers(p, ser, pkgs[1..], tail);
        hide Delivers;
        DeliversOneMore(p, ser, pkgs, tail, k, Loop(p, tail));
        k := k + 1;
      }
    }
  }

  lemma PartTail(image: Buffer, tail: Buffer, part: Buffer)
    requires part <= image + tail && |image| <= |part|
    ensures image <= part && part[|image|..] <= tail && image + part[|image|..] == part
  {
    assert part[..|image|] == (image + tail)[..|image|];
    assert part[|image|..] == tail[..|part| - |image|];
  }

  /** Package round trip: the loop returns exactly the packages laid out, and nothing is
      left over. */
  lemma PackagesRoundTrip(p: Protocol, ser: Serializer, pkgs: seq<Package>)
    requires AllFit(p, ser, pkgs)
    ensures Loop(p, Stream(ser, pkgs)) == Fed(EventsOf(pkgs), [], Waiting)
  {
    var k := PartDelivers(p, ser, pkgs, Stream(ser, pkgs));
    assert pkgs[..k] == pkgs;
  }

  lemma {:induction false} EventsPrefix(pkgs: seq<Package>, k: nat)
    requires k <= |pkgs|
    ensures EventsOf(pkgs[..k]) == EventsOf(pkgs)[..k]
    decreases k
  {
    if k > 0 {
      assert pkgs[..k][1..] == pkgs[1..][..k - 1];
      EventsPrefix(pkgs[1..], k - 1);
    }
  }
}
