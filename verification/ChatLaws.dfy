/** The cached counters of a conversation against its history. */
module ChatLaws {
  import opened Wrappers
  import opened TextCodec
  import opened Chat

  lemma UnreadAppend(side: Side, ms: seq<Message>, m: Message)
    ensures Unread(side, ms + [m]) == Unread(side, ms) + if m.side == side && m.readAt.None? then 1 else 0
  {
    assert (ms + [m])[..|ms|] == ms;
  }

  lemma OfAppend(side: Side, ms: seq<Message>, m: Message)
    ensures Of(side, ms + [m]) == Of(side, ms) + if m.side == side then 1 else 0
  {
    assert (ms + [m])[..|ms|] == ms;
  }

  lemma {:induction false} MarkedCounts(ms: seq<Message>, side: Side, now: int, other: Side)
    ensures Unread(other, MarkRead(ms, side, now)) == if other == side then 0 else Unread(other, ms)
    ensures Of(other, MarkRead(ms, side, now)) == Of(other, ms)
  {
    if ms != [] {
      var front := ms[..|ms| - 1];
      MarkedCounts(front, side, now, other);
      assert MarkRead(ms, side, now)[..|ms| - 1] == MarkRead(front, side, now);
    }
  }

  // ---- the worker's counter ------------------------------------------------------------

  predicate Counted(s: State) {
    s.Some? ==> s.value.forUser == Unread(Admin, s.value.messages)
                && s.value.forAdmin <= Unread(User, s.value.messages)
  }

  lemma AppendKeepsCounted(t: Thread, side: Side, body: string)
    requires Counted(Some(t))
    ensures Counted(Some(Append(t, side, body)))
  {
    hide Unread;
    UnreadAppend(User, t.messages, Message(side, body, None));
    UnreadAppend(Admin, t.messages, Message(side, body, None));
  }

  lemma SendKeepsCounted(s: State, body: string, allowed: bool)
    requires Counted(s)
    ensures Counted(SendMessage(s, body, allowed).0)
  {
    var t := s.GetOr(Thread([], 0, 0, false));
    assert Counted(Some(t));
    hide Strip, Unread, Append, BadLength, Counted;
    AppendKeepsCounted(t, User, Strip(body));
  }

  lemma ReplyKeepsCounted(s: State, body: string)
    requires Counted(s)
    ensures Counted(Reply(s, body).0)
  {
    hide Strip, Unread, Append, BadLength, Counted;
    if s.Some? {
      AppendKeepsCounted(s.value, Admin, Strip(body));
    }
  }

  lemma StepKeepsCounted(s: State, e: Event)
    requires Counted(s)
    ensures Counted(Step(s, e).0)
  {
    hide SendMessage, Reply, MyMessages, ThreadMessages, Unread;
    match e {
      case OnSend(body, allowed) => SendKeepsCounted(s, body, allowed);
      case OnReply(body) => ReplyKeepsCounted(s, body);
      case OnRead(now) => ReadKeepsCounted(s, now);
      case OnOpen(now) => OpenKeepsCounted(s, now);
      case OnArchive(_) =>
    }
  }

  lemma ReadKeepsCounted(s: State, now: int)
    requires Counted(s)
    ensures Counted(MyMessages(s, now).0)
  {
    hide MarkRead, Unread;
    MarkedCounts(Messages(s), Admin, now, Admin);
    MarkedCounts(Messages(s), Admin, now, User);
  }

  lemma OpenKeepsCounted(s: State, now: int)
    requires Counted(s)
    ensures Counted(ThreadMessages(s, now).0)
  {
    hide MarkRead, Unread;
    MarkedCounts(Messages(s), User, now, Admin);
    MarkedCounts(Messages(s), User, now, User);
  }

  /** In every run, the worker's badge is the number of administrators' messages not read, and
      the administrators' badge never exceeds the number of the worker's messages not read. */
  lemma {:induction false} BadgesFollowTheMessages(es: seq<Event>)
    ensures Run(es).Some? ==> Run(es).value.forUser == Unread(Admin, Run(es).value.messages)
                              && Run(es).value.forAdmin <= Unread(User, Run(es).value.messages)
    ensures Counted(Run(es))
  {
    hide Step;
    if es != [] {
      BadgesFollowTheMessages(es[..|es| - 1]);
      StepKeepsCounted(Run(es[..|es| - 1]), es[|es| - 1]);
    }
  }

  // ---- the administrators' counter -------------------------------------------------------

  /** Event i was a reply sent or a conversation opened. */
  predicate Attends(es: seq<Event>, i: nat)
    requires i < |es|
  {
    (es[i].OnReply? || es[i].OnOpen?) && Done(es, i)
  }

  lemma RunOneMore(es: seq<Event>, n: nat)
    requires n < |es|
    ensures Run(es[..n + 1]) == Step(Run(es[..n]), es[n]).0
  {
    assert es[..n + 1][..n] == es[..n];
  }

  /** What a step that is not an administrator's attention does to messages and counter. */
  lemma Waits(s: State, e: Event, m: nat)
    requires m <= |Messages(s)| && !((e.OnReply? || e.OnOpen?) && Step(s, e).1.Ok?)
    ensures var (t, t') := (Messages(s), Messages(Step(s, e).0));
            m <= |t| <= |t'| && Of(User, t'[m..]) - Of(User, t[m..]) == Badge(Step(s, e).0) - Badge(s)
  {
    hide Strip, Of, BadLength;
    var (t, t') := (Messages(s), Messages(Step(s, e).0));
    match e {
      case OnSend(body, _) =>
        if Step(s, e).1.Ok? {
          assert t' == t + [Message(User, Strip(body), None)];
          assert t'[m..] == t[m..] + [Message(User, Strip(body), None)];
          OfAppend(User, t[m..], Message(User, Strip(body), None));
        }
      case OnRead(now) =>
        if t' != t {
          assert t' == MarkRead(t, Admin, now);
          assert t'[m..] == MarkRead(t[m..], Admin, now);
          MarkedCounts(t[m..], Admin, now, User);
        }
      case _ =>
    }
  }

  function Badge(s: State): nat {
    if s.Some? then s.value.forAdmin else 0
  }

  /** The administrators' badge is the number of the worker's messages since the last time an
      administrator replied or opened the conversation, or since the beginning. */
  lemma {:induction false} AdminBadgeIsExact(es: seq<Event>, i: nat)
    requires i <= |es| && (i == 0 || Attends(es, i - 1))
    requires forall j :: i <= j < |es| ==> !Attends(es, j)
    ensures |Messages(Run(es[..i]))| <= |Messages(Run(es))|
    ensures Badge(Run(es)) == Of(User, Messages(Run(es))[|Messages(Run(es[..i]))|..])
    decreases |es|
  {
    hide Done, Step, Of;
    if i == |es| {
      assert es[..i] == es;
      AttendedIsZero(es, i);
      assert Messages(Run(es))[|Messages(Run(es))|..] == [];
      OfNothing();
    } else {
      var front := es[..|es| - 1];
      FrontAgrees(es, i);
      AdminBadgeIsExact(front, i);
      assert front[..i] == es[..i];
      assert !Attends(es, |es| - 1);
      LastWaits(es);
      Waits(Run(front), es[|es| - 1], |Messages(Run(es[..i]))|);
    }
  }

  lemma OfNothing()
    ensures Of(User, []) == 0
  {
  }

  lemma LastWaits(es: seq<Event>)
    requires es != [] && !Attends(es, |es| - 1)
    ensures var (s, e) := (Run(es[..|es| - 1]), es[|es| - 1]);
            !((e.OnReply? || e.OnOpen?) && Step(s, e).1.Ok?) && Run(es) == Step(s, e).0
  {
  }

  lemma AttendedIsZero(es: seq<Event>, i: nat)
    requires i == |es| && (i == 0 || Attends(es, i - 1))
    ensures Badge(Run(es)) == 0
  {
    hide Strip, MarkRead;
  }

  lemma FrontAgrees(es: seq<Event>, i: nat)
    requires i < |es| && (i == 0 || Attends(es, i - 1))
    requires forall j :: i <= j < |es| ==> !Attends(es, j)
    ensures var front := es[..|es| - 1];
            (i == 0 || Attends(front, i - 1)) && forall j :: i <= j < |front| ==> !Attends(front, j)
  {
    hide Step;
    var front := es[..|es| - 1];
    forall j | 0 <= j < |front|
      ensures Attends(front, j) == Attends(es, j)
    {
      assert front[..j] == es[..j];
    }
  }

  // ---- messages left unread by a reply -------------------------------------------------

  /** The badge counts exactly the worker's unread messages. */
  predicate BadgeIsUnread(s: State) {
    Badge(s) == Unread(User, Messages(s))
  }

  /** A reply sent without opening the conversation while worker's messages wait. */
  predicate RepliesBlindly(s: State, e: Event) {
    e.OnReply? && s.Some? && !BadLength(e.body) && Strip(e.body) != "" && Badge(s) != 0
  }

  lemma AppendAndBadge(t: Thread, side: Side, body: string)
    requires BadgeIsUnread(Some(t))
    ensures BadgeIsUnread(Some(Append(t, side, body))) <==> side == User || t.forAdmin == 0
  {
    hide Unread;
    UnreadAppend(User, t.messages, Message(side, body, None));
  }

  lemma BlindReplyBreaksBadge(s: State, e: Event)
    requires BadgeIsUnread(s)
    ensures BadgeIsUnread(Step(s, e).0) <==> !RepliesBlindly(s, e)
  {
    var blank := Thread([], 0, 0, false);
    assert BadgeIsUnread(Some(blank));
    hide Strip, MarkRead, Unread, BadLength, Append;
    match e {
      case OnSend(body, _) => AppendAndBadge(s.GetOr(blank), User, Strip(body));
      case OnReply(body) =>
        if s.Some? {
          AppendAndBadge(s.value, Admin, Strip(body));
        }
      case OnRead(now) => MarkedCounts(Messages(s), Admin, now, User);
      case OnOpen(now) => MarkedCounts(Messages(s), User, now, User);
      case OnArchive(_) =>
    }
  }

  /** The administrators' badge is the number of unread worker's messages all through a run
      exactly when nobody replies past messages that the badge still counts. */
  lemma BadgeIsUnreadThroughout(es: seq<Event>)
    ensures (forall k :: 0 <= k <= |es| ==> BadgeIsUnread(Run(es[..k])))
            <==> (forall k :: 0 <= k < |es| ==> !RepliesBlindly(Run(es[..k]), es[k]))
  {
    hide BadgeIsUnread, RepliesBlindly, Step, Run;
    if forall k :: 0 <= k < |es| ==> !RepliesBlindly(Run(es[..k]), es[k]) {
      forall k | 0 <= k <= |es|
        ensures BadgeIsUnread(Run(es[..k]))
      {
        NoBlindReply(es, k);
      }
    } else if forall k :: 0 <= k <= |es| ==> BadgeIsUnread(Run(es[..k])) {
      forall k | 0 <= k < |es|
        ensures !RepliesBlindly(Run(es[..k]), es[k])
      {
        RunOneMore(es, k);
        BlindReplyBreaksBadge(Run(es[..k]), es[k]);
      }
    }
  }

  lemma {:induction false} NoBlindReply(es: seq<Event>, k: nat)
    requires k <= |es| && forall i :: 0 <= i < k ==> !RepliesBlindly(Run(es[..i]), es[i])
    ensures BadgeIsUnread(Run(es[..k]))
  {
    if k == 0 {
      assert es[..0] == [];
    } else {
      hide BadgeIsUnread, RepliesBlindly, Step, Run;
      NoBlindReply(es, k - 1);
      RunOneMore(es, k - 1);
      BlindReplyBreaksBadge(Run(es[..k - 1]), es[k - 1]);
    }
  }

  /** An opening that finds the badge above zero: it marks the worker's messages read. */
  predicate Clears(s: State, e: Event) {
    e.OnOpen? && Badge(s) != 0
  }

  /** A reply passed over waiting messages, and no opening has cleared since. */
  ghost predicate PassedOver(es: seq<Event>) {
    exists r :: 0 <= r < |es| && RepliesBlindly(Run(es[..r]), es[r])
                && forall j :: r < j < |es| ==> !Clears(Run(es[..j]), es[j])
  }

  /** How one step bears on badge and unread messages being equal. */
  lemma StepAndBadge(s: State, e: Event)
    requires Counted(s)
    ensures BadgeIsUnread(Step(s, e).0) <==> Clears(s, e) || (BadgeIsUnread(s) && !RepliesBlindly(s, e))
  {
    if BadgeIsUnread(s) {
      BlindReplyBreaksBadge(s, e);
    } else {
      hide Strip, MarkRead, Unread, BadLength, Append;
      var ms := Messages(s);
      match e {
        case OnSend(body, _) => UnreadAfterAppend(s.value, User, Strip(body));
        case OnReply(body) => UnreadAfterAppend(s.value, Admin, Strip(body));
        case OnRead(now) => MarkedCounts(ms, Admin, now, User);
        case OnOpen(now) => MarkedCounts(ms, User, now, User);
        case OnArchive(_) =>
      }
    }
  }

  lemma UnreadAfterAppend(t: Thread, side: Side, body: string)
    ensures var t' := Append(t, side, body);
            Unread(User, t'.messages) == Unread(User, t.messages) + (if side == User then 1 else 0)
            && t'.forAdmin == if side == User then t.forAdmin + 1 else 0
  {
    hide Unread;
    UnreadAppend(User, t.messages, Message(side, body, None));
  }

  /** After every run the badge counts the worker's unread messages, all of them, exactly when
      none is left that a reply passed over. */
  lemma {:induction false} BadgeIsUnreadIff(es: seq<Event>)
    ensures BadgeIsUnread(Run(es)) <==> !PassedOver(es)
  {
    if es != [] {
      var (front, e) := (es[..|es| - 1], es[|es| - 1]);
      BadgeIsUnreadIff(front);
      BadgesFollowTheMessages(front);
      StepAndBadge(Run(front), e);
      hide BadgeIsUnread, RepliesBlindly, Clears, Step;
      PassedOverUnfolds(es);
    }
  }

  lemma PassedOverUnfolds(es: seq<Event>)
    requires es != []
    ensures var (front, e) := (es[..|es| - 1], es[|es| - 1]);
            PassedOver(es) <==> RepliesBlindly(Run(front), e) || (PassedOver(front) && !Clears(Run(front), e))
  {
    hide RepliesBlindly, Clears, Run, PassedOver;
    if PassedOver(es) {
      PassedOverBefore(es);
    } else {
      PassedOverAfter(es);
    }
  }

  lemma PassedOverBefore(es: seq<Event>)
    requires es != [] && PassedOver(es)
    ensures var (front, e) := (es[..|es| - 1], es[|es| - 1]);
            RepliesBlindly(Run(front), e) || (PassedOver(front) && !Clears(Run(front), e))
  {
    hide RepliesBlindly, Clears, Run;
    var (front, n) := (es[..|es| - 1], |es| - 1);
    var r :| 0 <= r < |es| && RepliesBlindly(Run(es[..r]), es[r]) && forall j :: r < j < |es| ==> !Clears(Run(es[..j]), es[j]);
    if r < n {
      assert front[..r] == es[..r] && !Clears(Run(es[..n]), es[n]);
      forall j | r < j < n
        ensures !Clears(Run(front[..j]), front[j])
      {
        assert front[..j] == es[..j];
      }
    }
  }

  lemma PassedOverAfter(es: seq<Event>)
    requires es != [] && !PassedOver(es)
    ensures var (front, e) := (es[..|es| - 1], es[|es| - 1]);
            !RepliesBlindly(Run(front), e) && !(PassedOver(front) && !Clears(Run(front), e))
  {
    hide RepliesBlindly, Clears, Run, PassedOver;
    var (front, n) := (es[..|es| - 1], |es| - 1);
    if RepliesBlindly(Run(front), es[n]) {
      PassedOverAt(es, n);
    } else if PassedOver(front) && !Clears(Run(front), es[n]) {
      var r := WherePassedOver(front);
      assert es[..r] == front[..r];
      forall j | r < j < |es|
        ensures !Clears(Run(es[..j]), es[j])
      {
        assert j < n ==> es[..j] == front[..j];
      }
      PassedOverAt(es, r);
    }
  }

  lemma WherePassedOver(es: seq<Event>) returns (r: nat)
    requires PassedOver(es)
    ensures r < |es| && RepliesBlindly(Run(es[..r]), es[r]) && forall j :: r < j < |es| ==> !Clears(Run(es[..j]), es[j])
  {
    hide RepliesBlindly, Clears, Run;
    r :| 0 <= r < |es| && RepliesBlindly(Run(es[..r]), es[r]) && forall j :: r < j < |es| ==> !Clears(Run(es[..j]), es[j]);
  }

  lemma PassedOverAt(es: seq<Event>, r: nat)
    requires r < |es| && RepliesBlindly(Run(es[..r]), es[r]) && forall j :: r < j < |es| ==> !Clears(Run(es[..j]), es[j])
    ensures PassedOver(es)
  {
    hide RepliesBlindly, Clears, Run;
  }

  /** "Opening marks the worker's messages read": it does, all of them, exactly when the badge
      is above zero or no message is left that a reply passed over. */
  lemma OpeningMarksAllIff(es: seq<Event>, now: int)
    ensures Unread(User, Messages(ThreadMessages(Run(es), now).0)) == 0 <==> Badge(Run(es)) != 0 || !PassedOver(es)
  {
    assert Unread(User, []) == 0;
    hide Unread, MarkRead, Run, PassedOver;
    BadgeIsUnreadIff(es);
    MarkedCounts(Messages(Run(es)), User, now, User);
  }

  /** The same by the history alone: a worker's message since the last reply or opening, or
      nothing left that a reply passed over. */
  lemma OpeningMarksAllByHistory(es: seq<Event>, i: nat, now: int)
    requires i <= |es| && (i == 0 || Attends(es, i - 1))
    requires forall j :: i <= j < |es| ==> !Attends(es, j)
    ensures |Messages(Run(es[..i]))| <= |Messages(Run(es))|
    ensures Unread(User, Messages(ThreadMessages(Run(es), now).0)) == 0
            <==> Of(User, Messages(Run(es))[|Messages(Run(es[..i]))|..]) != 0 || !PassedOver(es)
  {
    hide Unread, Of, Run, PassedOver, Attends, ThreadMessages;
    AdminBadgeIsExact(es, i);
    OpeningMarksAllIff(es, now);
  }

  /** All openings of a run mark everything read exactly when each finds the badge above zero
      or nothing left that a reply passed over. */
  lemma EveryOpeningMarksAll(es: seq<Event>)
    ensures (forall k :: 0 <= k < |es| && es[k].OnOpen? ==> Unread(User, Messages(Run(es[..k + 1]))) == 0)
            <==> (forall k :: 0 <= k < |es| && es[k].OnOpen? ==> Badge(Run(es[..k])) != 0 || !PassedOver(es[..k]))
  {
    hide Unread, Run, PassedOver, ThreadMessages;
    forall k | 0 <= k < |es| && es[k].OnOpen?
      ensures Unread(User, Messages(Run(es[..k + 1]))) == 0 <==> Badge(Run(es[..k])) != 0 || !PassedOver(es[..k])
    {
      RunOneMore(es, k);
      OpeningMarksAllIff(es[..k], es[k].now);
    }
  }

  /** While the badge is zero and the worker sends nothing, nothing reads what was passed over:
      not reading, replying, opening or archiving, in any number and order. */
  lemma {:induction false} PassedOverStaysUnread(es: seq<Event>, k: nat)
    requires k <= |es| && Badge(Run(es[..k])) == 0
    requires forall j :: k <= j < |es| && es[j].OnSend? ==> !Done(es, j)
    ensures Badge(Run(es)) == 0 && Unread(User, Messages(Run(es))) == Unread(User, Messages(Run(es[..k])))
    decreases |es|
  {
    if k == |es| {
      assert es[..k] == es;
    } else {
      var (front, n) := (es[..|es| - 1], |es| - 1);
      assert forall j :: 0 <= j <= n ==> front[..j] == es[..j];
      assert forall j :: 0 <= j < n ==> Done(front, j) == Done(es, j);
      PassedOverStaysUnread(front, k);
      assert front == es[..n] && Run(es) == Step(Run(front), es[n]).0;
      assert es[n].OnSend? ==> !Done(es, n);
      hide Run;
      NothingNewReadsNothing(Run(front), es[n]);
    }
  }

  lemma NothingNewReadsNothing(s: State, e: Event)
    requires Badge(s) == 0 && (e.OnSend? ==> Step(s, e).1.Err?)
    ensures Badge(Step(s, e).0) == 0 && Unread(User, Messages(Step(s, e).0)) == Unread(User, Messages(s))
  {
    hide Strip, MarkRead, Unread, BadLength, Append;
    match e {
      case OnReply(body) =>
        if s.Some? {
          UnreadAfterAppend(s.value, Admin, Strip(body));
        }
      case OnRead(now) => MarkedCounts(Messages(s), Admin, now, User);
      case _ =>
    }
  }

  /** Ask, be answered, and have the conversation opened: the question is still unread. */
  lemma AnsweredButUnread(now: int)
    ensures var s := Run([OnSend("?", true), OnReply("!"), OnOpen(now)]);
            Badge(s) == 0 && Unread(User, Messages(s)) == 1
  {
    var es := [OnSend("?", true), OnReply("!"), OnOpen(now)];
    assert Strip("?") == "?" && Strip("!") == "!";
    RunOneMore(es, 0);
    RunOneMore(es, 1);
    RunOneMore(es, 2);
    assert es[..0] == [] && es[..3] == es;
    hide Strip, Unread;
    var (question, answer) := (Message(User, "?", None), Message(Admin, "!", None));
    assert Messages(Run(es[..1])) == [] + [question];
    assert Messages(Run(es[..2])) == [question] + [answer];
    UnreadAppend(User, [], question);
    UnreadAppend(User, [question], answer);
    EmptyHasNoUnread();
  }

  // ---- archiving ---------------------------------------------------------------------------

  /** Event i moved the conversation into or out of the archive. */
  predicate Files(es: seq<Event>, i: nat)
    requires i < |es|
  {
    (es[i].OnSend? || es[i].OnReply? || es[i].OnArchive?) && Done(es, i)
  }

  function Archived(s: State): bool {
    s.Some? && s.value.archived
  }

  /** A conversation is archived exactly when the last of its messages and archivings archived
      it: any message brings it back. */
  lemma {:induction false} ArchivedIsTheLastWord(es: seq<Event>, i: nat)
    requires i < |es| && Files(es, i) && forall j :: i < j < |es| ==> !Files(es, j)
    ensures Archived(Run(es)) <==> es[i] == OnArchive(true)
    decreases |es|
  {
    var (front, s, e) := (es[..|es| - 1], Run(es[..|es| - 1]), es[|es| - 1]);
    if i < |es| - 1 {
      forall j | 0 <= j < |front|
        ensures Files(front, j) == Files(es, j)
      {
        assert front[..j] == es[..j];
      }
      ArchivedIsTheLastWord(front, i);
      assert !Files(es, |es| - 1);
      hide Strip, MarkRead, Run;
      assert Archived(Step(s, e).0) == Archived(s);
    }
  }

  // ---- the record ----------------------------------------------------------------------------

  /** Later messages say what they said, and a time of reading, once set, stays. */
  ghost predicate Extends(before: seq<Message>, after: seq<Message>) {
    |before| <= |after| && forall i :: 0 <= i < |before| ==>
      after[i].side == before[i].side && after[i].body == before[i].body
      && (before[i].readAt.Some? ==> after[i].readAt == before[i].readAt)
  }

  lemma StepExtends(s: State, e: Event)
    ensures Extends(Messages(s), Messages(Step(s, e).0))
  {
    hide Strip;
  }

  /** Nothing said or read is ever lost. */
  lemma {:induction false} MessagesAreKept(es: seq<Event>, i: nat)
    requires i <= |es|
    ensures Extends(Messages(Run(es[..i])), Messages(Run(es)))
    decreases |es|
  {
    if i < |es| {
      MessagesAreKept(es[..|es| - 1], i);
      assert es[..|es| - 1][..i] == es[..i];
      hide Step;
      StepExtends(Run(es[..|es| - 1]), es[|es| - 1]);
    } else {
      assert es[..i] == es;
    }
  }

  /** In every reachable state, a worker who reads is handed every message, none of the
      administrators' unread, and the badge is cleared. */
  lemma ReadingReadsAll(es: seq<Event>, now: int)
    ensures var (s, (s', r)) := (Run(es), MyMessages(Run(es), now));
            r.Ok? && |r.value| == |Messages(s)| && r.value == Messages(s')
            && Unread(Admin, r.value) == 0 && (s'.Some? ==> s'.value.forUser == 0)
            && Unread(User, r.value) == Unread(User, Messages(s))
  {
    hide Unread, MarkRead;
    BadgesFollowTheMessages(es);
    MarkedCounts(Messages(Run(es)), Admin, now, Admin);
    MarkedCounts(Messages(Run(es)), Admin, now, User);
    EmptyHasNoUnread();
    MarkedLength(Messages(Run(es)), Admin, now);
  }

  lemma EmptyHasNoUnread()
    ensures Unread(Admin, []) == 0 && Unread(User, []) == 0
  {
  }

  lemma MarkedLength(ms: seq<Message>, side: Side, now: int)
    ensures |MarkRead(ms, side, now)| == |ms|
  {
  }

  // ---- what each call does ---------------------------------------------------------------------

  predicate Sendable(body: string) {
    1 <= |body| <= 2000 && Strip(body) != ""
  }

  function ForUser(s: State): nat {
    if s.Some? then s.value.forUser else 0
  }

  /** A message of 1 to 2000 characters that is not blank is taken unless the limiter objects, and
      is stored trimmed, unread, at the end; it counts for the administrators and brings the
      conversation back. */
  lemma SendIsExact(s: State, body: string, allowed: bool)
    ensures var (s', r) := SendMessage(s, body, allowed);
            && (r.Ok? <==> Sendable(body) && allowed)
            && (r == Err(TooMany) <==> 1 <= |body| <= 2000 && !allowed)
            && (r.Err? ==> s' == s)
            && (r.Ok? ==>
                  var m := Message(User, Strip(body), None);
                  s' == Some(Thread(Messages(s) + [m], ForUser(s), Badge(s) + 1, false)) && r.value == [m])
  {
    hide Strip;
  }

  /** A reply is taken likewise, in a conversation that exists; it counts for the worker, clears
      the administrators' badge, and brings the conversation back. */
  lemma ReplyIsExact(s: State, body: string)
    ensures var (s', r) := Reply(s, body);
            && (r.Ok? <==> Sendable(body) && s.Some?)
            && (r == Err(NotFound) <==> 1 <= |body| <= 2000 && s.None?)
            && (r.Err? ==> s' == s)
            && (r.Ok? ==>
                  var m := Message(Admin, Strip(body), None);
                  s' == Some(Thread(Messages(s) + [m], ForUser(s) + 1, 0, false)) && r.value == [m])
  {
    hide Strip;
  }

  /** Opening hands over the whole conversation as it is then: with a badge above zero every
      unread message of the worker was read now, and nothing else of the messages changed. */
  lemma OpeningIsExact(s: State, now: int)
    ensures var (s', r) := ThreadMessages(s, now);
            && (r.Ok? <==> s.Some?)
            && (s.None? ==> s' == s)
            && (s.Some? ==>
                  && r.value == Messages(s') && |Messages(s')| == |Messages(s)|
                  && s' == Some(Thread(Messages(s'), ForUser(s), 0, s.value.archived))
                  && forall i :: 0 <= i < |Messages(s)| ==>
                       Messages(s')[i] == if Badge(s) > 0 && Messages(s)[i].side == User && Messages(s)[i].readAt == None
                                          then Message(User, Messages(s)[i].body, Some(now)) else Messages(s)[i])
  {
  }

  /** The worker's reading does the same to the administrators' messages; without a conversation
      there is nothing to read. */
  lemma ReadingIsExact(s: State, now: int)
    ensures var (s', r) := MyMessages(s, now);
            && r == Ok(Messages(s'))
            && (s.None? ==> s' == s)
            && (s.Some? ==>
                  && |Messages(s')| == |Messages(s)|
                  && s' == Some(Thread(Messages(s'), 0, Badge(s), s.value.archived))
                  && forall i :: 0 <= i < |Messages(s)| ==>
                       Messages(s')[i] == if ForUser(s) > 0 && Messages(s)[i].side == Admin && Messages(s)[i].readAt == None
                                          then Message(Admin, Messages(s)[i].body, Some(now)) else Messages(s)[i])
  {
  }

  /** Archiving sets the flag of a conversation that exists, and nothing else. */
  lemma ArchivingIsExact(s: State, flag: bool)
    ensures var (s', r) := Archive(s, flag);
            && (r.Ok? <==> s.Some?)
            && (s.None? ==> s' == s)
            && (s.Some? ==> s' == Some(Thread(Messages(s), ForUser(s), Badge(s), flag)))
  {
  }
}
