/** From `send` at one end to the consumer at the other. Between the two is the reliable,
    in-order byte stream of section 2.2 of RFC 9293: what the receiver has read is always
    a prefix of what has reached the sender's socket. */
module EndToEnd {
  import opened Bytes
  import WriteQueue
  import ConnectionRuns
  import ConnectionTheorems
  import WriteQueueInvariant
  import opened Framing
  import EntryModels
  import opened PackageImages

  /** The buffers an entry hands to its connection for one package: the image and, with an
      attachment, the attached binary as a buffer of its own. */
  function BuffersOf(ser: Serializer, pkg: Package, attachedApart: bool): (bufs: seq<Buffer>)
    ensures Flatten(bufs) == ImageOf(ser, pkg)
  {
    var image := ImageOf(ser, pkg);
    FlattenOne(image);
    match pkg
    case MessagePackage(id, msg, attached, space) =>
      if attachedApart then
        var front := image[..|image| - |attached|];
        FlattenOne(front);
        FlattenSnoc([front], attached);
        assert [front] + [attached] == [front, attached];
        assert image == front + attached;
        [front, attached]
      else [image]
    case _ => [image]
  }

  /** The accepted sends carry these packages, one each, in this order. */
  ghost predicate Carry(sends: seq<WriteQueue.SendRecord>, ser: Serializer, pkgs: seq<Package>)
  {
    if sends == [] then pkgs == [] else
      var last := sends[|sends| - 1];
      if !last.taken then Carry(sends[..|sends| - 1], ser, pkgs)
      else
        && pkgs != []
        && Flatten(last.bufs) == ImageOf(ser, pkgs[|pkgs| - 1])
        && Carry(sends[..|sends| - 1], ser, pkgs[..|pkgs| - 1])
  }

  lemma {:induction false} StreamSnoc(ser: Serializer, pkgs: seq<Package>, pkg: Package)
    ensures Stream(ser, pkgs + [pkg]) == Stream(ser, pkgs) + ImageOf(ser, pkg)
  {
    hide ImageOf;
    if pkgs == [] {
      assert [pkg][1..] == [];
    } else {
      assert (pkgs + [pkg])[1..] == pkgs[1..] + [pkg];
      StreamSnoc(ser, pkgs[1..], pkg);
    }
  }

  lemma {:induction false} CarriedBytes(sends: seq<WriteQueue.SendRecord>, ser: Serializer, pkgs: seq<Package>)
    requires Carry(sends, ser, pkgs)
    ensures WriteQueue.TakenBytes(sends) == Stream(ser, pkgs)
    decreases |sends|
  {
    hide ImageOf;
    if sends != [] {
      var n, m := |sends| - 1, |pkgs| - 1;
      if sends[n].taken {
        CarriedBytes(sends[..n], ser, pkgs[..m]);
        StreamSnoc(ser, pkgs[..m], pkgs[m]);
        assert pkgs == pkgs[..m] + [pkgs[m]];
      } else {
        CarriedBytes(sends[..n], ser, pkgs);
      }
    }
  }

  /** Whatever the sender's operating system does, and however the receiver's input is cut:
      the events delivered are always a prefix of the packages accepted by send, and all of
      them once everything has been written and read. */
  lemma DeliveredInOrder(o: WriteQueue.Oracle, steps: seq<WriteQueue.Event>,
                         p: Protocol, ser: Serializer, pkgs: seq<Package>, chunks: seq<Buffer>)
    requires AllFit(p, ser, pkgs)
    ensures var s := ConnectionRuns.Run(o, steps);
            Carry(s.sends, ser, pkgs) && Flatten(chunks) <= s.wire ==>
              && FeedAll(p, chunks).events <= EventsOf(pkgs)
              && (Flatten(chunks) == s.wire && s.queue == [WriteQueue.EMPTY]
                  ==> FeedAll(p, chunks).events == EventsOf(pkgs) && FeedAll(p, chunks).rest == [])
  {
    hide WriteQueueInvariant.Inv, WriteQueue.BytesOf, ParseOne, ImageOf;
    var s := ConnectionRuns.Run(o, steps);
    var part := Flatten(chunks);
    if Carry(s.sends, ser, pkgs) && part <= s.wire {
      ConnectionTheorems.BytesAreConserved(o, steps);
      CarriedBytes(s.sends, ser, pkgs);
      var k := PartDelivers(p, ser, pkgs, part);
      WaitingIsCalm(p, part);
      CalmChunks(p, chunks, part);
      EventsPrefix(pkgs, k);
      if part == Stream(ser, pkgs) {
        PackagesRoundTrip(p, ser, pkgs);
        assert pkgs[..k] == pkgs;
      }
    }
  }

  /** The same for an entry that also checks heartbeats and may be ended at any time: it
      delivers the accepted packages in order, and never ends because of its input. */
  lemma EntryDeliversInOrder(o: WriteQueue.Oracle, steps: seq<WriteQueue.Event>, ser: Serializer, pkgs: seq<Package>,
                             c: EntryModels.Config, handler: EntryModels.Handler, t0: int, received: seq<EntryModels.Step>)
    requires AllFit(c.protocol, ser, pkgs)
    ensures var s := ConnectionRuns.Run(o, steps);
            var e := EntryModels.Run(c, EntryModels.Start(c, handler, t0), received);
            var part := Flatten(EntryModels.ChunksOf(received));
            Carry(s.sends, ser, pkgs) && part <= s.wire ==>
              && !e.asserted && e.delivered <= EventsOf(pkgs)
              && (part == s.wire && s.queue == [WriteQueue.EMPTY] ==> e.delivered == EventsOf(pkgs) && e.rest == [])
              && EntryModels.NotForInput(EntryModels.Causes(c, EntryModels.Start(c, handler, t0), received))
  {
    hide WriteQueueInvariant.Inv, WriteQueue.BytesOf, ParseOne, ImageOf, EntryModels.Run, EntryModels.Causes;
    var s := ConnectionRuns.Run(o, steps);
    var chunks := EntryModels.ChunksOf(received);
    if Carry(s.sends, ser, pkgs) && Flatten(chunks) <= s.wire {
      ConnectionTheorems.BytesAreConserved(o, steps);
      CarriedBytes(s.sends, ser, pkgs);
      var k := PartDelivers(c.protocol, ser, pkgs, Flatten(chunks));
      EntryModels.GoodInputIsDelivered(c, handler, t0, received);
      WaitingIsCalm(c.protocol, Flatten(chunks));
      CalmChunks(c.protocol, chunks, Flatten(chunks));
      DeliveredInOrder(o, steps, c.protocol, ser, pkgs, chunks);
    }
  }
}
