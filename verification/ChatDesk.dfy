/** The chat endpoints on one account's conversation, updated in place. Each is proved to do
    exactly what the function of the same name in module Chat says. */
module ChatDesk {
  import opened Wrappers
  import opened TextCodec
  import opened Chat

  class Conversation {
    var started: bool
    var messages: seq<Message>
    var forUser: nat
    var forAdmin: nat
    var archived: bool

    ghost function Now(): State
      reads this
    {
      if started then Some(Thread(messages, forUser, forAdmin, archived)) else None
    }

    constructor ()
      ensures Now() == None
    {
      started, messages, forUser, forAdmin, archived := false, [], 0, 0, false;
    }

    method Append(side: Side, body: string) returns (m: Message)
      requires started
      modifies this
      ensures Now() == Some(Chat.Append(old(Now()).value, side, body))
      ensures messages == old(messages) + [m]
    {
      m := Message(side, body, None);
      messages := messages + [m];
      if side == User {
        forAdmin := forAdmin + 1;
      } else {
        forUser := forUser + 1;
        forAdmin := 0;
      }
      archived := false;
    }

    method SendMessage(body: string, allowed: bool) returns (r: Answer)
      modifies this
      ensures (Now(), r) == Chat.SendMessage(old(Now()), body, allowed)
    {
      hide Strip;
      if BadLength(body) {
        return Err(Unprocessable);
      }
      if !allowed {
        return Err(TooMany);
      }
      var text := Strip(body);
      if text == "" {
        return Err(Unprocessable);
      }
      if !started {
        started, messages, forUser, forAdmin, archived := true, [], 0, 0, false;
      }
      var m := Append(User, text);
      r := Ok([m]);
    }

    method ReplyToThread(body: string) returns (r: Answer)
      modifies this
      ensures (Now(), r) == Reply(old(Now()), body)
    {
      hide Strip;
      if BadLength(body) {
        return Err(Unprocessable);
      }
      if !started {
        return Err(NotFound);
      }
      var text := Strip(body);
      if text == "" {
        return Err(Unprocessable);
      }
      var m := Append(Admin, text);
      r := Ok([m]);
    }

    method MarkSide(side: Side, now: int)
      modifies this`messages
      ensures messages == MarkRead(old(messages), side, now)
    {
      for i := 0 to |messages|
        invariant |messages| == |old(messages)|
        invariant forall k :: 0 <= k < i ==> messages[k] == MarkRead(old(messages), side, now)[k]
        invariant forall k :: i <= k < |messages| ==> messages[k] == old(messages)[k]
      {
        if messages[i].side == side && messages[i].readAt.None? {
          messages := messages[i := messages[i].(readAt := Some(now))];
        }
      }
    }

    method MyMessages(now: int) returns (r: Answer)
      modifies this
      ensures (Now(), r) == Chat.MyMessages(old(Now()), now)
    {
      hide MarkRead;
      if !started {
        return Ok([]);
      }
      if forUser != 0 {
        MarkSide(Admin, now);
        forUser := 0;
      }
      r := Ok(messages);
    }

    method ThreadMessages(now: int) returns (r: Answer)
      modifies this
      ensures (Now(), r) == Chat.ThreadMessages(old(Now()), now)
    {
      hide MarkRead;
      if !started {
        return Err(NotFound);
      }
      if forAdmin != 0 {
        MarkSide(User, now);
        forAdmin := 0;
      }
      r := Ok(messages);
    }

    method ArchiveThread(flag: bool) returns (r: Answer)
      modifies this
      ensures (Now(), r) == Archive(old(Now()), flag)
    {
      if !started {
        return Err(NotFound);
      }
      archived := flag;
      r := Ok([]);
    }
  }
}
