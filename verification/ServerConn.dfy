/**
 One server association (internal/serverconn/conn.go): the negotiated
 parameters and the request loop. An inbound PDU is taken as the decoder
 classified it, and a confirmed request together with what the service
 handler answers.
 */
module ServerConn {
  import opened Bytes
  import opened Results
  import opened Ber
  import opened Integers
  import opened Responses
  import opened Envelope
  import E = ErrorWire

  const MIN_PDU_SIZE := 128
  const MIN_OUTSTANDING := 1
  const MIN_NESTING := 1

  /** The parameters of an association: proposed, configured or negotiated. */
  datatype Params = Params(maxPdu: int, calling: int, called: int, nesting: int)

  function Min(a: int, b: int): int {
    if a < b then a else b
  }

  function ClampMin(v: int, minimum: int): int {
    if v < minimum then minimum else v
  }

  function Negotiate(own: Params, proposed: Params): Params
  {
    Params(
      ClampMin(Min(own.maxPdu, proposed.maxPdu), MIN_PDU_SIZE),
      ClampMin(Min(own.calling, proposed.calling), MIN_OUTSTANDING),
      ClampMin(Min(own.called, proposed.called), MIN_OUTSTANDING),
      ClampMin(Min(own.nesting, proposed.nesting), MIN_NESTING))
  }

  /** The client's applyNegotiatedParams. */
  function Apply(proposed: Params, answer: Params): Params
  {
    Params(
      if answer.maxPdu <= 0 then proposed.maxPdu else answer.maxPdu,
      ClampMin(Min(proposed.calling, answer.calling), 1),
      ClampMin(Min(proposed.called, answer.called), 1),
      if answer.nesting <= 0 then proposed.nesting else answer.nesting)
  }

  datatype Answer =
    | Payload(tag: int, constructed: bool, bytes: seq<Byte>)
    | ServiceFailure(class_: Int64, code: Int64)
    | OtherFailure

  datatype Kind =
    | Undecodable
    | Conclude
    | Confirmed(id: Uint32, answer: Answer)
    | BadConfirmed
    | Cancel(id: Uint32)
    | BadCancel
    | Unexpected

  /** What the transport delivers: an MMS PDU, a session FINISH, or something else. */
  datatype Inbound = Pdu(size: nat, kind: Kind) | Finish | Garbage

  /** checkPDUSize, and the same test in Serve: a limit of zero or less is none. */
  predicate WithinLimit(size: nat, maxPdu: int) {
    maxPdu > 0 ==> size <= maxPdu
  }

  function ConfirmedReply(maxPdu: int, id: Uint32, answer: Answer): (pdu: seq<Byte>)
  {
    match answer
    case ServiceFailure(class_, code) => ConfirmedError(id, class_, code)
    case OtherFailure => ConfirmedError(id, 7, 1)
    case Payload(tag, constructed, bytes) =>
      var pdu := ConfirmedResponse(id, tag, constructed, bytes);
      if WithinLimit(|pdu|, maxPdu) then pdu else ConfirmedError(id, 3, 0)
  }

  /** The PDUs one inbound PDU is answered with: none or one. */
  function Reaction(maxPdu: int, x: Inbound): (out: seq<seq<Byte>>)
  {
    if !x.Pdu? || !WithinLimit(x.size, maxPdu) then []
    else
      match x.kind
      case Conclude => [ConcludeResponse()]
      case Confirmed(id, answer) => [ConfirmedReply(maxPdu, id, answer)]
      case BadConfirmed => [RejectPdu(0, 1, 0)]
      case Cancel(id) => [CancelError(id, 10, 1)]
      case _ => []
  }

  predicate Ends(maxPdu: int, x: Inbound) {
    x.Pdu? ==> WithinLimit(x.size, maxPdu) && x.kind.Conclude?
  }

  /** Everything the loop sends for a run of inbound PDUs, in order. */
  function Replies(maxPdu: int, inbound: seq<Inbound>): (out: seq<seq<Byte>>)
  {
    if inbound == [] then []
    else if Ends(maxPdu, inbound[0]) then Reaction(maxPdu, inbound[0])
    else Reaction(maxPdu, inbound[0]) + Replies(maxPdu, inbound[1..])
  }

  /** What gets out of a run of PDUs over a transport that takes n more and then fails. */
  function Cut(out: seq<seq<Byte>>, n: nat): (r: seq<seq<Byte>>)
  {
    if |out| <= n then out else out[..n]
  }

  class Conn {
    var opts: Params
    var pending: Option<Params>
    var sent: seq<seq<Byte>>
    /** How many more sends the transport takes before it fails. */
    var capacity: nat

    constructor (own: Params, capacity: nat)
      ensures opts == own && pending == None && sent == [] && this.capacity == capacity
    {
      opts, pending, sent, this.capacity := own, None, [], capacity;
    }

    method ReceiveAssociation(proposed: Params)
      modifies this`pending
      ensures pending == Some(proposed)
    {
      pending := Some(proposed);
    }

    /**
     AcceptAssociation: the answer carries the parameters this end will use, and it is sent
     once; when it cannot be sent the options stay as they were.
     */
    method AcceptAssociation() returns (r: Result<Params>)
      modifies this`opts, this`pending, this`capacity
      ensures pending == None
      ensures old(pending).None? || old(capacity) == 0 ==> r == Err && opts == old(opts) && capacity == old(capacity)
      ensures old(pending).Some? && old(capacity) > 0 ==>
                r == Ok(opts) && BestForAll(old(opts), old(pending).value, opts) && capacity == old(capacity) - 1
      ensures old(pending).Some? && old(capacity) > 0 ==> opts == Negotiate(old(opts), old(pending).value)
    {
      if pending.None? {
        return Err;
      }
      var proposed := pending.value;
      pending := None;
      var negotiated := Negotiate(opts, proposed);
      if capacity == 0 {
        return Err;
      }
      capacity := capacity - 1;
      opts := negotiated;
      return Ok(negotiated);
    }

    method SendData(pdu: seq<Byte>) returns (ok: bool)
      modifies this`sent, this`capacity
      ensures ok <==> old(capacity) > 0
      ensures sent == old(sent) + (if ok then [pdu] else [])
      ensures capacity == old(capacity) - (if ok then 1 else 0)
    {
      if capacity == 0 {
        return false;
      }
      sent, capacity := sent + [pdu], capacity - 1;
      return true;
    }

    method HandleConfirmedRequest(id: Uint32, answer: Answer) returns (ok: bool)
      modifies this`sent, this`capacity
      ensures ok <==> old(capacity) > 0
      ensures sent == old(sent) + (if ok then [ConfirmedReply(opts.maxPdu, id, answer)] else [])
      ensures capacity == old(capacity) - (if ok then 1 else 0)
    {
      match answer {
        case ServiceFailure(class_, code) =>
          ok := SendData(ConfirmedError(id, class_, code));
        case OtherFailure =>
          ok := SendData(ConfirmedError(id, 7, 1));
        case Payload(tag, constructed, bytes) =>
          var pdu := ConfirmedResponse(id, tag, constructed, bytes);
          if opts.maxPdu > 0 && |pdu| > opts.maxPdu {
            ok := SendData(ConfirmedError(id, 3, 0));
            return;
          }
          ok := SendData(pdu);
      }
    }

    /** Serve, until the transport fails or has no more to deliver, or the peer ends the association. */
    method Serve(inbound: seq<Inbound>)
      modifies this`sent, this`capacity
      ensures sent == old(sent) + Cut(Replies(opts.maxPdu, inbound), old(capacity))
    {
      hide Replies, ConfirmedReply, RejectPdu, CancelError, ConcludeResponse, Cut;
      NoReplies(opts.maxPdu);
      ghost var all := old(sent) + Cut(Replies(opts.maxPdu, inbound), old(capacity));
      var i := 0;
      while i < |inbound|
        invariant i <= |inbound|
        invariant sent + Cut(Replies(opts.maxPdu, inbound[i..]), capacity) == all
      {
        var x := inbound[i];
        RepliesStep(opts.maxPdu, inbound, i, capacity, sent);
        i := i + 1;
        if !x.Pdu? {
          return;
        }
        if opts.maxPdu > 0 && x.size > opts.maxPdu {
          continue;
        }
        var ok := true;
        match x.kind {
          case Conclude =>
            ok := SendData(ConcludeResponse());
            return;
          case Confirmed(id, answer) =>
            ok := HandleConfirmedRequest(id, answer);
          case BadConfirmed =>
            ok := SendData(RejectPdu(0, 1, 0));
          case Cancel(id) =>
            ok := SendData(CancelError(id, 10, 1));
          case _ =>
        }
        if !ok {
          return;
        }
      }
      assert inbound[i..] == [];
    }
  }

  lemma NoReplies(maxPdu: int)
    ensures Replies(maxPdu, []) == []
    ensures forall n: nat :: Cut([], n) == []
  {
  }

  /** One round of the loop: at most one send, which uses up one of those the transport takes. */
  lemma RepliesStep(maxPdu: int, inbound: seq<Inbound>, i: nat, n: nat, sent: seq<seq<Byte>>)
    requires i < |inbound|
    ensures var out, rest := Reaction(maxPdu, inbound[i]), inbound[i + 1..];
            var later := if Ends(maxPdu, inbound[i]) then [] else Replies(maxPdu, rest);
            sent + Cut(Replies(maxPdu, inbound[i..]), n) ==
            if out == [] then sent + Cut(later, n)
            else if n == 0 then sent
            else sent + out + Cut(later, n - 1)
  {
    assert inbound[i..][1..] == inbound[i + 1..];
    var out := Reaction(maxPdu, inbound[i]);
    var later := if Ends(maxPdu, inbound[i]) then [] else Replies(maxPdu, inbound[i + 1..]);
    assert Replies(maxPdu, inbound[i..]) == out + later;
    CutStep(out, later, n);
  }

  lemma CutStep(out: seq<seq<Byte>>, later: seq<seq<Byte>>, n: nat)
    requires |out| <= 1
    ensures Cut(out + later, n) == if out == [] then Cut(later, n) else if n == 0 then [] else out + Cut(later, n - 1)
  {
    if out == [] {
      assert out + later == later;
    }
  }

  // ----- negotiation

  /** Whatever the two ends are configured with, they end up with the same usable parameters. */
  lemma EndsAgree(own: Params, proposed: Params)
    ensures var agreed := Negotiate(own, proposed);
            && Apply(proposed, agreed) == agreed
            && agreed.maxPdu >= 128 && agreed.calling >= 1 && agreed.called >= 1 && agreed.nesting >= 1
  {
  }

  /** Neither end exceeds its own configuration, except where that is below the minimum. */
  lemma WithinConfiguration(own: Params, proposed: Params)
    ensures var agreed := Negotiate(own, proposed);
            && (agreed.maxPdu <= own.maxPdu <==> own.maxPdu >= MIN_PDU_SIZE)
            && (agreed.maxPdu <= proposed.maxPdu <==> proposed.maxPdu >= MIN_PDU_SIZE)
            && (agreed.calling <= own.calling <==> own.calling >= MIN_OUTSTANDING)
            && (agreed.calling <= proposed.calling <==> proposed.calling >= MIN_OUTSTANDING)
  {
  }

  /** The greatest value both ends allow, but no less than the minimum. */
  ghost predicate Best(own: int, proposed: int, minimum: int, agreed: int) {
    && minimum <= agreed
    && (agreed > minimum ==> agreed <= own && agreed <= proposed)
    && (own <= agreed || proposed <= agreed)
  }

  ghost predicate BestForAll(own: Params, proposed: Params, agreed: Params) {
    && Best(own.maxPdu, proposed.maxPdu, 128, agreed.maxPdu)
    && Best(own.calling, proposed.calling, 1, agreed.calling)
    && Best(own.called, proposed.called, 1, agreed.called)
    && Best(own.nesting, proposed.nesting, 1, agreed.nesting)
  }

  /** There is one best value: no other one that both ends allow is greater. */
  lemma BestIsGreatest(own: int, proposed: int, minimum: int, agreed: int, v: int)
    requires Best(own, proposed, minimum, agreed)
    ensures v <= own && v <= proposed ==> v <= agreed
    ensures own >= minimum ==> agreed <= own
    ensures proposed >= minimum ==> agreed <= proposed
    ensures Best(own, proposed, minimum, v) ==> v == agreed
  {
  }

  /** Every parameter the server agrees to is as large as both ends allow, and at least the minimum. */
  lemma NegotiatedIsBest(own: Params, proposed: Params)
    ensures BestForAll(own, proposed, Negotiate(own, proposed))
  {
  }

  /** What the client uses with any server: its size and nesting, and the best of both for outstanding calls. */
  lemma AppliedIsBest(proposed: Params, answer: Params)
    ensures var used := Apply(proposed, answer);
            && used.maxPdu == (if answer.maxPdu > 0 then answer else proposed).maxPdu
            && used.nesting == (if answer.nesting > 0 then answer else proposed).nesting
            && Best(proposed.calling, answer.calling, 1, used.calling)
            && Best(proposed.called, answer.called, 1, used.called)
  {
  }

  // ----- what the loop sends

  lemma ReactionFits(maxPdu: int, x: Inbound, pdu: seq<Byte>)
    requires maxPdu >= MIN_PDU_SIZE && pdu in Reaction(maxPdu, x)
    ensures |pdu| <= maxPdu
  {
    hide ConfirmedResponse, ConfirmedError, RejectPdu, CancelError;
    ErrorSize(0, 1, 0, RejectPdu(0, 1, 0));
    match x.kind
    case Cancel(id) => ErrorSize(id, 10, 1, CancelError(id, 10, 1));
    case Confirmed(id, answer) =>
      ErrorSize(id, 7, 1, ConfirmedError(id, 7, 1));
      ErrorSize(id, 3, 0, ConfirmedError(id, 3, 0));
      if answer.ServiceFailure? {
        ErrorSize(id, answer.class_, answer.code, ConfirmedError(id, answer.class_, answer.code));
      }
    case _ =>
  }

  /** Every PDU of every run is one the client's own size check lets through. */
  lemma {:induction false} RepliesFit(own: Params, proposed: Params, inbound: seq<Inbound>, pdu: seq<Byte>)
    requires pdu in Replies(Negotiate(own, proposed).maxPdu, inbound)
    ensures WithinLimit(|pdu|, Apply(proposed, Negotiate(own, proposed)).maxPdu)
    decreases |inbound|
  {
    hide Reaction, Ends;
    var maxPdu := Negotiate(own, proposed).maxPdu;
    if pdu in Reaction(maxPdu, inbound[0]) {
      ReactionFits(maxPdu, inbound[0], pdu);
    } else {
      RepliesFit(own, proposed, inbound[1..], pdu);
    }
  }

  lemma ErrorReadBack(id: Uint32, class_: Int64, code: Int64)
    ensures var pdu := ConfirmedError(id, class_, code);
            && InvokeIDOf(pdu) == Ok(id)
            && UnwrapPdu(pdu) == Ok(Raw(0xa2, 2, E.ErrorContent(id, class_, code)))
  {
    hide Wrap, EncodeTLV, EncodeUnsigned, UnwrapPdu, InvokeIDOf, ServiceError;
    var pdu := ConfirmedError(id, class_, code);
    ErrorSize(id, class_, code, pdu);
    InvokeIDReadBack(2, 0x80, id, EncodeTLV(0xa2, ServiceError(class_, code)), pdu);
  }

  /** The class and code an answer that is no payload, or one that does not fit, is reported with. */
  function ErrorOf(answer: Answer): (Int64, Int64)
  {
    match answer
    case ServiceFailure(class_, code) => (class_, code)
    case OtherFailure => (7, 1)
    case Payload(_, _, _) => (3, 0)
  }

  predicate Answers(maxPdu: int, id: Uint32, answer: Answer) {
    answer.Payload? && |ConfirmedResponse(id, answer.tag, answer.constructed, answer.bytes)| <= maxPdu
  }

  /** The client reads this service, with this payload, as the answer to this request. */
  ghost predicate Received(content: seq<Byte>, id: Uint32, answer: Answer)
    requires answer.Payload?
  {
    var r := UnmarshalEnvelope(content);
    && r.Ok? && r.value.id == id
    && r.value.service.number == answer.tag && r.value.service.content == answer.bytes
    && r.value.service.lead / 0x20 == (if answer.constructed then 5 else 4)
  }

  /** A payload arrives exactly when its service tag is a number the client's reader has room for. */
  ghost predicate Delivers(content: seq<Byte>, id: Uint32, answer: Answer)
    requires answer.Payload?
  {
    Received(content, id, answer) <==> 0 <= answer.tag <= MAX_INT32
  }

  /** An error arrives exactly when its class is a single-octet tag number and its code a 32-bit integer. */
  ghost predicate Reports(content: seq<Byte>, id: Uint32, error: (Int64, Int64)) {
    E.DecodeConfirmedError(content) == Ok(E.ErrorInfo(id, error.0, error.1)) <==> (0 <= error.0 <= 30 && E.InInt32(error.1))
  }

  /**
   The reply carries the request's ID. The client decodes the handler's payload from it exactly
   when the response fits, and otherwise the class and code of the error.
   */
  lemma ReplyOutcome(maxPdu: int, id: Uint32, answer: Answer)
    requires MIN_PDU_SIZE <= maxPdu <= MAX_INT32
    ensures var reply := ConfirmedReply(maxPdu, id, answer);
            && InvokeIDOf(reply) == Ok(id)
            && UnwrapPdu(reply).Ok?
            && UnwrapPdu(reply).value.lead == (if Answers(maxPdu, id, answer) then 0xa1 else 0xa2)
            && (if Answers(maxPdu, id, answer) then Delivers(UnwrapPdu(reply).value.content, id, answer)
                else Reports(UnwrapPdu(reply).value.content, id, ErrorOf(answer)))
  {
    hide Wrap, EncodeTLV, EncodeInt, EncodeUnsigned, UnwrapPdu, UnmarshalEnvelope, InvokeIDOf, E.DecodeConfirmedError, E.ErrorContent;
    if Answers(maxPdu, id, answer) {
      var service := Wrap(answer.tag, answer.constructed, answer.bytes);
      IdSize(id);
      InvokeIDReadBack(1, 0x02, id, service, ConfirmedReply(maxPdu, id, answer));
      ResponseReadBack(id, answer.tag, answer.constructed, answer.bytes);
    } else {
      var (class_, code) := ErrorOf(answer);
      ErrorReadBack(id, class_, code);
      E.ErrorRoundTrip(id, class_, code);
    }
  }

  /** A malformed confirmed request is rejected as such, with the invoke ID zero. */
  lemma BadRequestRejected()
    ensures var outer := UnwrapPdu(RejectPdu(0, 1, 0));
            && outer.Ok? && outer.value.lead == 0xa4
            && E.DecodeReject(outer.value.content) == Ok(E.Fields(E.ErrorInfo(0, 1, 0), true, true))
  {
    hide Wrap, EncodeTLV, EncodeUnsigned, UnwrapPdu, InvokeIDOf, EncodeInt, E.DecodeReject;
    ErrorSize(0, 1, 0, RejectPdu(0, 1, 0));
    InvokeIDReadBack(4, 0x80, 0, Wrap(1, false, EncodeInt(0)), RejectPdu(0, 1, 0));
    E.RejectRoundTrip(0, 1, 0);
  }

  // ----- one reply for each request, in order

  /** The invoke IDs of the confirmed responses and errors in a run of PDUs. */
  function AnsweredIds(out: seq<seq<Byte>>): (ids: seq<Result<nat>>)
  {
    if out == [] then []
    else
      (if UnwrapPdu(out[0]).Ok? && UnwrapPdu(out[0]).value.lead in {0xa1, 0xa2} then [InvokeIDOf(out[0])] else [])
      + AnsweredIds(out[1..])
  }

  /** A well-formed confirmed request within the size limit. */
  predicate Answerable(maxPdu: int, x: Inbound) {
    x.Pdu? && WithinLimit(x.size, maxPdu) && x.kind.Confirmed?
  }

  /** The invoke IDs of the well-formed confirmed requests the loop gets to see. */
  function RequestedIds(maxPdu: int, inbound: seq<Inbound>): (ids: seq<Result<nat>>)
  {
    if inbound == [] || Ends(maxPdu, inbound[0]) then []
    else
      (if Answerable(maxPdu, inbound[0]) then [Ok(inbound[0].kind.id)] else [])
      + RequestedIds(maxPdu, inbound[1..])
  }

  lemma NotAnAnswer(x: Inbound, maxPdu: int)
    requires x.Pdu? ==> !x.kind.Confirmed?
    ensures AnsweredIds(Reaction(maxPdu, x)) == []
  {
    hide Wrap, EncodeTLV, EncodeUnsigned, UnwrapPdu, InvokeIDOf, ServiceError;
    if x.Pdu? {
      match x.kind
      case BadConfirmed =>
        ErrorSize(0, 1, 0, RejectPdu(0, 1, 0));
        InvokeIDReadBack(4, 0x80, 0, Wrap(1, false, EncodeInt(0)), RejectPdu(0, 1, 0));
      case Cancel(id) =>
        ErrorSize(id, 10, 1, CancelError(id, 10, 1));
        InvokeIDReadBack(7, 0x80, id, EncodeTLV(0xa1, ServiceError(10, 1)), CancelError(id, 10, 1));
      case Conclude =>
        ConcludeBytes();
      case _ =>
    }
  }

  lemma ConcludeBytes()
    ensures UnwrapPdu(ConcludeResponse()) == Ok(Raw(0x8c, 12, []))
  {
    hide Wrap, ParseRaw;
    WrapInverts(12, false, [], []);
    assert Wrap(12, false, []) + [] == Wrap(12, false, []);
  }

  lemma AnsweredStep(first: seq<seq<Byte>>, rest: seq<seq<Byte>>)
    requires |first| <= 1
    ensures AnsweredIds(first + rest) == AnsweredIds(first) + AnsweredIds(rest)
  {
    if first == [] {
      assert first + rest == rest;
    } else {
      assert (first + rest)[1..] == rest;
      assert first[1..] == [];
    }
  }

  /** Over a whole run: exactly one answer for each request, in order, each with its request's invoke ID. */
  lemma {:induction false} OneAnswerEach(maxPdu: int, inbound: seq<Inbound>)
    requires MIN_PDU_SIZE <= maxPdu <= MAX_INT32
    ensures AnsweredIds(Replies(maxPdu, inbound)) == RequestedIds(maxPdu, inbound)
    decreases |inbound|
  {
    hide ConfirmedReply, UnwrapPdu, InvokeIDOf, RejectPdu, CancelError, ConcludeResponse;
    if inbound != [] {
      var x := inbound[0];
      AnsweredStep(Reaction(maxPdu, x), Replies(maxPdu, inbound[1..]));
      OneAnswerEach(maxPdu, inbound[1..]);
      if x.Pdu? && x.kind.Confirmed? {
        ReplyOutcome(maxPdu, x.kind.id, x.kind.answer);
      } else {
        NotAnAnswer(x, maxPdu);
      }
    }
  }

  /** Over a transport that fails, the answers that get out are the first of them. */
  lemma {:induction false} AnswersCut(out: seq<seq<Byte>>, n: nat)
    ensures AnsweredIds(Cut(out, n)) <= AnsweredIds(out)
    ensures forall pdu :: pdu in Cut(out, n) ==> pdu in out
    decreases |out|
  {
    hide UnwrapPdu, InvokeIDOf;
    if out != [] && n > 0 {
      AnswersCut(out[1..], n - 1);
      CutStep(out[..1], out[1..], n);
      assert out == out[..1] + out[1..];
      AnsweredStep(out[..1], out[1..]);
      AnsweredStep(out[..1], Cut(out[1..], n - 1));
    }
  }
}
