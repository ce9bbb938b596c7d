/** One account's conversation with the administrators, backend/routers/chat.py. Times are
    integers; the thread starts with the account's first message. */
module Chat {
  import opened Wrappers
  import opened TextCodec

  datatype Side = User | Admin

  datatype Message = Message(side: Side, body: string, readAt: Option<int>)

  datatype Thread = Thread(messages: seq<Message>, forUser: nat, forAdmin: nat, archived: bool)

  type State = Option<Thread>

  datatype Error = Unprocessable | TooMany | NotFound

  type Answer = Result<seq<Message>, Error>

  const MAX_CHARS := 2000

  predicate BadLength(body: string) {
    body == "" || |body| > MAX_CHARS
  }

  function Append(t: Thread, side: Side, body: string): Thread {
    Thread(t.messages + [Message(side, body, None)],
           if side == Admin then t.forUser + 1 else t.forUser,
           if side == User then t.forAdmin + 1 else 0,
           false)
  }

  /** `allowed` is the rate limiter's word. */
  function SendMessage(s: State, body: string, allowed: bool): (State, Answer) {
    if BadLength(body) then (s, Err(Unprocessable))
    else if !allowed then (s, Err(TooMany))
    else if Strip(body) == "" then (s, Err(Unprocessable))
    else
      var t := Append(s.GetOr(Thread([], 0, 0, false)), User, Strip(body));
      (Some(t), Ok([t.messages[|t.messages| - 1]]))
  }

  function Reply(s: State, body: string): (State, Answer) {
    if BadLength(body) then (s, Err(Unprocessable))
    else if s.None? then (s, Err(NotFound))
    else if Strip(body) == "" then (s, Err(Unprocessable))
    else
      var t := Append(s.value, Admin, Strip(body));
      (Some(t), Ok([t.messages[|t.messages| - 1]]))
  }

  function MarkRead(ms: seq<Message>, side: Side, now: int): seq<Message> {
    seq(|ms|, i requires 0 <= i < |ms| =>
      if ms[i].side == side && ms[i].readAt.None? then ms[i].(readAt := Some(now)) else ms[i])
  }

  /** The account reads its conversation: administrators' messages become read, unless the
      counter says that there are none. */
  function MyMessages(s: State, now: int): (State, Answer) {
    if s.None? then (s, Ok([]))
    else
      var t := s.value;
      var t' := if t.forUser != 0 then t.(messages := MarkRead(t.messages, Admin, now), forUser := 0) else t;
      (Some(t'), Ok(t'.messages))
  }

  /** An administrator opens the conversation. */
  function ThreadMessages(s: State, now: int): (State, Answer) {
    if s.None? then (s, Err(NotFound))
    else
      var t := s.value;
      var t' := if t.forAdmin != 0 then t.(messages := MarkRead(t.messages, User, now), forAdmin := 0) else t;
      (Some(t'), Ok(t'.messages))
  }

  function Archive(s: State, archived: bool): (State, Answer) {
    if s.None? then (s, Err(NotFound)) else (Some(s.value.(archived := archived)), Ok([]))
  }

  // ---- runs ------------------------------------------------------------------------

  datatype Event =
    | OnSend(body: string, allowed: bool)
    | OnRead(now: int)
    | OnReply(body: string)
    | OnOpen(now: int)
    | OnArchive(archived: bool)

  function Step(s: State, e: Event): (State, Answer) {
    match e
    case OnSend(body, allowed) => SendMessage(s, body, allowed)
    case OnRead(now) => MyMessages(s, now)
    case OnReply(body) => Reply(s, body)
    case OnOpen(now) => ThreadMessages(s, now)
    case OnArchive(archived) => Archive(s, archived)
  }

  function Run(es: seq<Event>): State {
    if es == [] then None else Step(Run(es[..|es| - 1]), es[|es| - 1]).0
  }

  /** Event i of the run was answered without an error. */
  predicate Done(es: seq<Event>, i: nat)
    requires i < |es|
  {
    Step(Run(es[..i]), es[i]).1.Ok?
  }

  function Messages(s: State): seq<Message> {
    if s.Some? then s.value.messages else []
  }

  function Of(side: Side, ms: seq<Message>): nat {
    if ms == [] then 0
    else Of(side, ms[..|ms| - 1]) + (if ms[|ms| - 1].side == side then 1 else 0)
  }

  function Unread(side: Side, ms: seq<Message>): nat {
    if ms == [] then 0
    else Unread(side, ms[..|ms| - 1]) + (if ms[|ms| - 1].side == side && ms[|ms| - 1].readAt.None? then 1 else 0)
  }
}
