/** Publishing a signed event to the relay set and waiting, with
    `Promise.any`, for the first relay to acknowledge it. The concurrent race
    is modelled by its outcome: the relays' replies in the order they arrive. */
module Relays {
  import opened Js

  /** The relay set both publishing handlers use, in this order. */
  const RelayUrls: seq<string> := ["wss://relay.damus.io", "wss://relay.primal.net", "wss://nos.lol"]

  /** One relay's reply to a publish: an `ok` acknowledgement or a failure
      (refusal, connection error or timeout, all alike). */
  datatype Reply = Ack(relay: string) | Failed(relay: string, reason: string)

  /** First success, or every failure with one reason per relay, in the
      order of the relay list (as `AggregateError.errors` orders them). */
  datatype RaceResult = Acknowledged(relay: string) | AllFailed(reasons: seq<string>)

  /** The relays that replied, in arrival order. */
  function RepliedRelays(replies: seq<Reply>): seq<string> {
    seq(|replies|, i requires 0 <= i < |replies| => replies[i].relay)
  }

  /** `pool.publish` opens one publication per relay, so each relay of the
      list replies exactly once. */
  predicate OneReplyPerRelay(relays: seq<string>, replies: seq<Reply>) {
    |replies| == |relays| && multiset(RepliedRelays(replies)) == multiset(relays)
  }

  /** The relay of the earliest acknowledgement among replies in arrival order. */
  function FirstAck(replies: seq<Reply>): (r: Option<string>)
    ensures r.Some? <==> exists i :: 0 <= i < |replies| && replies[i].Ack?
    ensures r.Some? ==>
              exists i :: 0 <= i < |replies| && replies[i] == Ack(r.value)
                          && forall j :: 0 <= j < i ==> replies[j].Failed?
    decreases |replies|
  {
    if replies == [] then None
    else if replies[0].Ack? then Some(replies[0].relay)
    else FirstAck(replies[1..])
  }

  /** Later replies cannot change a race that an earlier reply already won. */
  lemma {:induction false} FirstAckIgnoresLaterReplies(replies: seq<Reply>, later: seq<Reply>)
    requires FirstAck(replies).Some?
    ensures FirstAck(replies + later) == FirstAck(replies)
    decreases |replies|
  {
    if replies[0].Failed? {
      assert (replies + later)[1..] == replies[1..] + later;
      FirstAckIgnoresLaterReplies(replies[1..], later);
    }
  }

  /** The reason the given relay's failure carries ("" when it has none). */
  function ReasonOf(relay: string, replies: seq<Reply>): string
    decreases |replies|
  {
    if replies == [] then ""
    else if replies[0].Failed? && replies[0].relay == relay then replies[0].reason
    else ReasonOf(relay, replies[1..])
  }

  /** A relay that failed has its own failure's reason looked up. */
  lemma {:induction false} ReasonOfFailedRelay(relay: string, replies: seq<Reply>)
    requires exists i :: 0 <= i < |replies| && replies[i].Failed? && replies[i].relay == relay
    ensures Failed(relay, ReasonOf(relay, replies)) in replies
    decreases |replies|
  {
    if !(replies[0].Failed? && replies[0].relay == relay) {
      var i :| 0 <= i < |replies| && replies[i].Failed? && replies[i].relay == relay;
      assert replies[1..][i - 1] == replies[i];
      ReasonOfFailedRelay(relay, replies[1..]);
    }
  }

  /** When every relay replied once and none acknowledged, each relay's
      looked-up reason is the one its own failure carries. */
  lemma FailedRelaysHaveReasons(relays: seq<string>, replies: seq<Reply>)
    requires FirstAck(replies).None?
    ensures OneReplyPerRelay(relays, replies) ==>
              forall j :: 0 <= j < |relays| ==> Failed(relays[j], ReasonOf(relays[j], replies)) in replies
  {
    if OneReplyPerRelay(relays, replies) {
      forall j | 0 <= j < |relays|
        ensures Failed(relays[j], ReasonOf(relays[j], replies)) in replies
      {
        assert relays[j] in multiset(RepliedRelays(replies));
        var i :| 0 <= i < |replies| && RepliedRelays(replies)[i] == relays[j];
        ReasonOfFailedRelay(relays[j], replies);
      }
    }
  }

  /** `Promise.any` over one publication per relay: the earliest
      acknowledgement wins; otherwise the race fails with each relay's reason
      in relay-list order. */
  function Race(relays: seq<string>, replies: seq<Reply>): (r: RaceResult)
    ensures r.Acknowledged? <==> exists i :: 0 <= i < |replies| && replies[i].Ack?
    ensures r.Acknowledged? ==>
              exists i :: 0 <= i < |replies| && replies[i] == Ack(r.relay)
                          && forall j :: 0 <= j < i ==> replies[j].Failed?
    ensures r.AllFailed? ==> |r.reasons| == |relays|
    ensures r.AllFailed? && OneReplyPerRelay(relays, replies) ==>
              forall j :: 0 <= j < |relays| ==> Failed(relays[j], r.reasons[j]) in replies
  {
    match FirstAck(replies)
    case Some(relay) => Acknowledged(relay)
    case None =>
      var reasons := seq(|relays|, j requires 0 <= j < |relays| => ReasonOf(relays[j], replies));
      FailedRelaysHaveReasons(relays, replies);
      AllFailed(reasons)
  }

  /** How the publishing code as written settles. Each relay's promise is
      `new Promise(r => p.on('ok', r))`: it resolves on an acknowledgement and
      never rejects, so `Promise.any` over them rejects only when the relay
      list is empty, and otherwise stays pending when no relay acknowledges. */
  datatype Settlement = Resolved(relay: string) | RejectedEmpty | NeverSettles

  function RaceAsWritten(relays: seq<string>, replies: seq<Reply>): (s: Settlement)
    ensures s.RejectedEmpty? <==> relays == []
    ensures s.Resolved? <==> relays != [] && Race(relays, replies).Acknowledged?
    ensures s.Resolved? ==> s.relay == Race(relays, replies).relay
  {
    if relays == [] then RejectedEmpty
    else
      match FirstAck(replies)
      case Some(relay) => Resolved(relay)
      case None => NeverSettles
  }

  /** Discrepancy: when every relay of a non-empty set fails, the intended
      race reports each relay's reason, but the code as written never settles. */
  lemma AllFailingRelaysNeverSettleAsWritten(relays: seq<string>, replies: seq<Reply>)
    requires relays != [] && OneReplyPerRelay(relays, replies)
    requires forall i :: 0 <= i < |replies| ==> replies[i].Failed?
    ensures RaceAsWritten(relays, replies) == NeverSettles
    ensures Race(relays, replies).AllFailed?
    ensures forall j :: 0 <= j < |relays| ==> Failed(relays[j], Race(relays, replies).reasons[j]) in replies
  {
  }

  /** The concrete case: the three configured relays fail, the last-listed
      first. The intended race lists the reasons in relay order; the code as
      written never settles. */
  lemma ThreeFailuresNeverSettleAsWritten()
    ensures var replies := [Failed(RelayUrls[2], "c"), Failed(RelayUrls[0], "a"), Failed(RelayUrls[1], "b")];
            RaceAsWritten(RelayUrls, replies) == NeverSettles
            && Race(RelayUrls, replies) == AllFailed(["a", "b", "c"])
  {
    var replies := [Failed(RelayUrls[2], "c"), Failed(RelayUrls[0], "a"), Failed(RelayUrls[1], "b")];
    assert replies[1..] == [Failed(RelayUrls[0], "a"), Failed(RelayUrls[1], "b")];
    assert replies[1..][1..] == [Failed(RelayUrls[1], "b")];
    assert |RelayUrls[0]| == 20 && |RelayUrls[1]| == 22 && |RelayUrls[2]| == 13;
    assert ReasonOf(RelayUrls[0], replies) == "a";
    assert ReasonOf(RelayUrls[1], replies[1..][1..]) == "b";
    assert ReasonOf(RelayUrls[1], replies[1..]) == "b";
    assert ReasonOf(RelayUrls[1], replies) == "b";
    assert ReasonOf(RelayUrls[2], replies) == "c";
  }

}
