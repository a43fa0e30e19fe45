/**
 `POST /contact`: append the submitted form, stamped with the time and the
 client address, to the messages file. A failed read is only logged and the
 handler carries on from an empty list; a failed write answers 500.
 */
module Contact {
  import opened Http

  /** One saved submission: `{ time, ip, body }`. */
  datatype Message = Message(time: string, ip: string, body: map<string, string>)

  const SAVE_MESSAGE_FAILED := "Não foi possível salvar a mensagem"

  /** What `/contact` answers and the messages file it leaves behind. */
  function ContactOutcome(messages: seq<Message>, msg: Message, readOk: bool, writeOk: bool): (r: Handled<seq<Message>>)
    ensures r.response.status != 200 ==> r.state == messages
    ensures r.response.status == 200 ==> r.state == (if readOk then messages else []) + [msg]
  {
    var loaded := if readOk then messages else [];
    if !writeOk then Handled(ErrorResponse(500, SAVE_MESSAGE_FAILED), messages)
    else Handled(Response(200, SavedJson, KeepCookies), loaded + [msg])
  }

  /** With both file operations working, exactly one message is appended and the rest kept. */
  lemma ContactAppendsOne(messages: seq<Message>, msg: Message)
    ensures var h := ContactOutcome(messages, msg, true, true);
      h.response == Response(200, SavedJson, KeepCookies) &&
      |h.state| == |messages| + 1 && h.state[..|messages|] == messages && h.state[|messages|] == msg
  {
  }

  /** A failed write answers 500 and the file keeps its old contents. */
  lemma ContactWriteFailure(messages: seq<Message>, msg: Message, readOk: bool)
    ensures var h := ContactOutcome(messages, msg, readOk, false);
      h.response == ErrorResponse(500, SAVE_MESSAGE_FAILED) && h.state == messages
  {
  }

  /**
   A failed read is not reported to the client: the handler starts from an
   empty list, so a successful write replaces the file's history with the one
   new message.
   */
  lemma ContactReadFailureDropsHistory(messages: seq<Message>, msg: Message)
    ensures var h := ContactOutcome(messages, msg, false, true);
      h.response.status == 200 && h.state == [msg]
  {
  }

  /** The answer is 200 exactly when the write succeeds, whatever the read did. */
  lemma ContactStatusIff(messages: seq<Message>, msg: Message, readOk: bool, writeOk: bool)
    ensures var h := ContactOutcome(messages, msg, readOk, writeOk);
      (h.response.status == 200 <==> writeOk) && h.response.status in {200, 500} &&
      (h.response.status == 200 ==> h.state[|h.state| - 1] == msg)
  {
  }

  /** The messages file, read whole and rewritten whole on each submission. */
  class MessageLog {
    var messages: seq<Message>

    constructor (persisted: seq<Message>)
      ensures messages == persisted
    {
      messages := persisted;
    }

    /** `POST /contact`, with the clock reading and client address passed in. */
    method Contact(time: string, ip: string, body: map<string, string>, readOk: bool, writeOk: bool)
      returns (resp: Response)
      modifies this
      ensures Handled(resp, messages) == ContactOutcome(old(messages), Message(time, ip, body), readOk, writeOk)
      ensures resp.status == 200 ==> |messages| >= 1 && messages[|messages| - 1] == Message(time, ip, body)
      ensures resp.status != 200 ==> messages == old(messages)
    {
      var data := Message(time, ip, body);
      var msgs: seq<Message> := [];
      if readOk {
        msgs := messages;
      }
      msgs := msgs + [data];
      if !writeOk {
        return ErrorResponse(500, SAVE_MESSAGE_FAILED);
      }
      messages := msgs;
      resp := Response(200, SavedJson, KeepCookies);
    }
  }
}
