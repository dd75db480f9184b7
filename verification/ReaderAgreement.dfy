/** The reader of the joined peers is the reader of `Receivers`. */
module ReaderAgreement {
  import opened Common
  import opened Codec
  import opened Codecs
  import Utf8
  import Requests
  import RequestSpec
  import Receivers
  import EndToEnd

  /** The server of the joined peers delivers what `handle_inbound_once` hands to its caller. */
  lemma InboundAgrees(kind: Kind, sh: Option<Requests.Shared>, frame: Frame)
    requires sh.Some? ==> RequestSpec.SlotsExist(sh.value)
    ensures EndToEnd.Inbound(kind, frame)
         == match Receivers.Handle(kind, sh, frame).1
            case Message(_, _, _, rawId) => Some(rawId)
            case _ => None
  {
    hide Decode, Utf8.Valid;
    DecodedCallInBounds(kind, frame);
  }

  /** The client of the joined peers begins the `set_response` that `handle_inbound_once` makes, and undisturbed it ends
      in the same context. */
  lemma ClientAgrees(s: EndToEnd.State, packet: EndToEnd.Packet) returns (ls: seq<Requests.Label>)
    requires EndToEnd.READER < |s.client.actors| && s.client.actors[EndToEnd.READER].Idle? && s.client.lock.None?
    requires RequestSpec.SlotsExist(s.client.sh)
    ensures ls != [] ==> Requests.Enabled(s.client, ls[0])
    ensures EndToEnd.ClientTook(s, packet).client == if ls == [] then s.client else Requests.Next(s.client, ls[0])
    ensures Requests.CanRun(s.client, ls)
    ensures Some(Requests.Run(s.client, ls).sh) == Receivers.Handle(s.kind, Some(s.client.sh), packet.frame).0
  {
    hide Decode, Utf8.Valid;
    ls := [];
    if Decode(s.kind, packet.frame).Frame? && Decode(s.kind, packet.frame).frame.Response? {
      var d := Decode(s.kind, packet.frame).frame;
      var reply := Requests.Reply(packet.frame, d.errc, d.payload);
      ls := RequestSpec.UndisturbedSetResponse(s.client, EndToEnd.READER, d.id, reply);
    }
  }
}
