/** The list bookkeeping of the doctor dashboard: the alert panel keeps at
    most one alert per patient and vital sign, the message badge shows the
    sum of unread counts, and each poll of the conversation overview raises
    one toast per new unread message, never twice for the same message. */
module DoctorDashboard {

  import opened Sequences
  import opened MockApi

  // ----- Alerts ---------------------------------------------------------

  datatype Vital = HeartRate | Temperature | BloodPressure | SpO2

  /** A vital-sign alert; the reading and the time are kept as numbers. */
  datatype Alert = Alert(
    id: string, patientName: string, patientId: string, vital: Vital,
    value: real, timestamp: int, message: string)

  /** Two alerts are about the same patient and vital sign. */
  predicate SameSubject(x: Alert, y: Alert)
  {
    x.patientId == y.patientId && x.vital == y.vital
  }

  predicate HasSubject(alerts: seq<Alert>, a: Alert)
  {
    exists i :: 0 <= i < |alerts| && SameSubject(alerts[i], a)
  }

  /** The alert list after `handleNewAlert(a)`: when an alert about the same
      patient and vital is shown, every such alert is replaced in place by
      `a`; otherwise `a` goes in front. */
  function HandleNewAlert(alerts: seq<Alert>, a: Alert): (r: seq<Alert>)
    ensures HasSubject(alerts, a) ==> |r| == |alerts|
    ensures HasSubject(alerts, a) ==>
      forall i :: 0 <= i < |r| ==> r[i] == if SameSubject(alerts[i], a) then a else alerts[i]
    ensures !HasSubject(alerts, a) ==> r == [a] + alerts
  {
    if HasSubject(alerts, a) then
      seq(|alerts|, i requires 0 <= i < |alerts| => if SameSubject(alerts[i], a) then a else alerts[i])
    else [a] + alerts
  }

  /** The new alert is shown and is the only one about its subject; every
      alert about another subject is shown exactly when it was before. */
  lemma HandleNewAlertShows(alerts: seq<Alert>, a: Alert)
    ensures a in HandleNewAlert(alerts, a)
    ensures forall x :: x in HandleNewAlert(alerts, a) && SameSubject(x, a) ==> x == a
    ensures forall x :: !SameSubject(x, a) ==> (x in HandleNewAlert(alerts, a) <==> x in alerts)
  {
    var r := HandleNewAlert(alerts, a);
    if HasSubject(alerts, a) {
      var i :| 0 <= i < |alerts| && SameSubject(alerts[i], a);
      assert r[i] == a;
      forall x | !SameSubject(x, a) && x in alerts ensures x in r {
        var j :| 0 <= j < |alerts| && alerts[j] == x;
        assert r[j] == x;
      }
    } else {
      assert r[0] == a;
    }
  }

  /** No two alerts on the panel are about the same patient and vital. */
  ghost predicate OnePerSubject(alerts: seq<Alert>)
  {
    forall i, j :: 0 <= i < j < |alerts| ==> !SameSubject(alerts[i], alerts[j])
  }

  lemma HandleNewAlertKeepsOnePerSubject(alerts: seq<Alert>, a: Alert)
    requires OnePerSubject(alerts)
    ensures OnePerSubject(HandleNewAlert(alerts, a))
  {
    var r := HandleNewAlert(alerts, a);
    if HasSubject(alerts, a) {
      forall i, j | 0 <= i < j < |r| ensures !SameSubject(r[i], r[j]) {
        assert !SameSubject(alerts[i], alerts[j]);
      }
    } else {
      forall i, j | 0 <= i < j < |r| ensures !SameSubject(r[i], r[j]) {
        if i == 0 {
          assert r[j] == alerts[j - 1];
        } else {
          assert r[i] == alerts[i - 1] && r[j] == alerts[j - 1];
        }
      }
    }
  }

  /** Delivering the same alert twice is delivering it once. */
  lemma HandleNewAlertIdempotent(alerts: seq<Alert>, a: Alert)
    ensures HandleNewAlert(HandleNewAlert(alerts, a), a) == HandleNewAlert(alerts, a)
  {
    var r := HandleNewAlert(alerts, a);
    HandleNewAlertShows(alerts, a);
    var i :| 0 <= i < |r| && r[i] == a;
    assert SameSubject(r[i], a);
  }

  // ----- The unread badge -----------------------------------------------

  /** `conversations.reduce((sum, c) => sum + c.unreadCount, 0)`. */
  function TotalUnread(conversations: seq<Conversation>): (total: nat)
    ensures total == 0 <==> forall i :: 0 <= i < |conversations| ==> conversations[i].unreadCount == 0
    ensures forall i :: 0 <= i < |conversations| ==> conversations[i].unreadCount <= total
  {
    if conversations == [] then 0
    else
      var n := |conversations| - 1;
      var sum := TotalUnread(conversations[..n]);
      assert forall i :: 0 <= i < n ==> conversations[..n][i] == conversations[i];
      sum + conversations[n].unreadCount
  }

  /** The badge of two lists shown together is the sum of their badges. */
  lemma {:induction false} TotalUnreadConcat(a: seq<Conversation>, b: seq<Conversation>)
    ensures TotalUnread(a + b) == TotalUnread(a) + TotalUnread(b)
  {
    if b == [] {
      assert a + b == a;
    } else {
      var n := |b| - 1;
      TotalUnreadConcat(a, b[..n]);
      assert (a + b)[..|a + b| - 1] == a + b[..n];
      assert (a + b)[|a + b| - 1] == b[n];
    }
  }

  // ----- New-message toasts ---------------------------------------------

  /** The preview of a message text: its first 40 characters and "..." when
      it is longer than 40 characters, the whole text otherwise. */
  function Preview(text: string): (r: string)
    ensures |text| > 40 ==> |r| == 43 && r[..40] == text[..40] && r[40..] == "..."
    ensures |text| <= 40 ==> r == text
  {
    if |text| > 40 then text[..40] + "..." else text
  }

  /** The text of the toast raised for a conversation. */
  function ToastText(c: Conversation): string
  {
    "New message from " + c.patient.name + ": \"" + Preview(c.lastMessage.text) + "\""
  }

  /** A conversation raises a toast when it has unread messages, its last
      message is not the doctor's own and that message has not been
      notified before. */
  predicate ShouldNotify(c: Conversation, doctorId: string, notified: set<string>)
  {
    c.unreadCount > 0 && c.lastMessage.senderId != doctorId && c.lastMessage.id !in notified
  }

  datatype PollResult = PollResult(toasts: seq<string>, notified: set<string>)

  /** Reference model of one poll: the conversations are visited in order,
      each one that should notify raises its toast and has its last message
      id added to the notified set. */
  function Poll(conversations: seq<Conversation>, doctorId: string, notified: set<string>): PollResult
  {
    if conversations == [] then PollResult([], notified)
    else
      var before := Poll(conversations[..|conversations| - 1], doctorId, notified);
      var c := conversations[|conversations| - 1];
      if ShouldNotify(c, doctorId, before.notified)
      then PollResult(before.toasts + [ToastText(c)], before.notified + {c.lastMessage.id})
      else before
  }

  /** The last message ids a poll marks as notified. */
  function Candidates(conversations: seq<Conversation>, doctorId: string): set<string>
  {
    set i | 0 <= i < |conversations| && conversations[i].unreadCount > 0 &&
            conversations[i].lastMessage.senderId != doctorId :: conversations[i].lastMessage.id
  }

  /** After a poll the notified set holds the ids it held before and the last
      message id of every conversation with unread messages from the patient. */
  lemma {:induction false} PollNotified(conversations: seq<Conversation>, doctorId: string, notified: set<string>)
    ensures Poll(conversations, doctorId, notified).notified == notified + Candidates(conversations, doctorId)
  {
    if conversations != [] {
      var n := |conversations| - 1;
      var pre := conversations[..n];
      PollNotified(pre, doctorId, notified);
      var c := conversations[n];
      var extra := if c.unreadCount > 0 && c.lastMessage.senderId != doctorId then {c.lastMessage.id} else {};
      assert Candidates(conversations, doctorId) == Candidates(pre, doctorId) + extra by {
        forall id | id in Candidates(conversations, doctorId)
          ensures id in Candidates(pre, doctorId) + extra
        {
          var i :| 0 <= i < |conversations| && conversations[i].unreadCount > 0 &&
                   conversations[i].lastMessage.senderId != doctorId && conversations[i].lastMessage.id == id;
          if i < n {
            assert pre[i] == conversations[i];
          }
        }
        forall id | id in Candidates(pre, doctorId) ensures id in Candidates(conversations, doctorId) {
          var i :| 0 <= i < |pre| && pre[i].unreadCount > 0 &&
                   pre[i].lastMessage.senderId != doctorId && pre[i].lastMessage.id == id;
          assert conversations[i] == pre[i];
        }
      }
    }
  }

  /** A poll over conversations that are all notified already raises nothing. */
  lemma {:induction false} PollQuiet(conversations: seq<Conversation>, doctorId: string, notified: set<string>)
    requires Candidates(conversations, doctorId) <= notified
    ensures Poll(conversations, doctorId, notified) == PollResult([], notified)
  {
    if conversations != [] {
      var n := |conversations| - 1;
      var pre := conversations[..n];
      assert Candidates(pre, doctorId) <= Candidates(conversations, doctorId) by {
        forall id | id in Candidates(pre, doctorId) ensures id in Candidates(conversations, doctorId) {
          var i :| 0 <= i < |pre| && pre[i].unreadCount > 0 &&
                   pre[i].lastMessage.senderId != doctorId && pre[i].lastMessage.id == id;
          assert conversations[i] == pre[i];
        }
      }
      PollQuiet(pre, doctorId, notified);
    }
  }

  /** Polling again with the same overview raises no further toast. */
  lemma SecondPollQuiet(conversations: seq<Conversation>, doctorId: string, notified: set<string>)
    ensures Poll(conversations, doctorId, Poll(conversations, doctorId, notified).notified).toasts == []
  {
    PollNotified(conversations, doctorId, notified);
    PollQuiet(conversations, doctorId, Poll(conversations, doctorId, notified).notified);
  }

  /** The filter condition of one poll. */
  function NotifiesWith(doctorId: string, notified: set<string>): Conversation -> bool
  {
    c => ShouldNotify(c, doctorId, notified)
  }

  /** The toast texts of a list of conversations, one per conversation. */
  function Texts(conversations: seq<Conversation>): seq<string>
  {
    seq(|conversations|, i requires 0 <= i < |conversations| => ToastText(conversations[i]))
  }

  /** When no two conversations share a last message, a poll raises, in
      order, the toasts of exactly the conversations that should notify
      against the notified set the poll started from. */
  lemma {:induction false} PollToasts(conversations: seq<Conversation>, doctorId: string, notified: set<string>)
    requires forall i, j :: 0 <= i < j < |conversations| ==>
      conversations[i].lastMessage.id != conversations[j].lastMessage.id
    ensures Poll(conversations, doctorId, notified).toasts ==
      Texts(Filter(conversations, NotifiesWith(doctorId, notified)))
  {
    if conversations != [] {
      var n := |conversations| - 1;
      var pre := conversations[..n];
      var c := conversations[n];
      PollToasts(pre, doctorId, notified);
      PollNotified(pre, doctorId, notified);
      assert c.lastMessage.id !in Candidates(pre, doctorId);
      assert conversations == pre + [c];
      FilterConcat(pre, [c], NotifiesWith(doctorId, notified));
      assert Filter([c][1..], NotifiesWith(doctorId, notified)) == [];
      var kept := Filter(pre, NotifiesWith(doctorId, notified));
      if ShouldNotify(c, doctorId, notified) {
        assert Texts(kept + [c]) == Texts(kept) + [ToastText(c)];
      } else {
        assert kept + [] == kept;
      }
    }
  }

  /** On an overview of a log with unique message ids, a poll raises exactly
      the toasts of the conversations that should notify, in overview order. */
  lemma PollOverview(messages: seq<Message>, patients: seq<User>, doctorId: string, notified: set<string>)
    requires forall i, j :: 0 <= i < j < |messages| ==> messages[i].id != messages[j].id
    ensures Poll(DoctorConversations(messages, patients, doctorId), doctorId, notified).toasts ==
      Texts(Filter(DoctorConversations(messages, patients, doctorId), NotifiesWith(doctorId, notified)))
  {
    ConversationsDistinctLastIds(messages, patients, doctorId);
    PollToasts(DoctorConversations(messages, patients, doctorId), doctorId, notified);
  }

  /** The ids already notified on this dashboard (`notifiedMessagesRef`).
      The set lives across polls and only grows. */
  class NotifiedMessages {
    var ids: set<string>

    constructor ()
      ensures ids == {}
    {
      ids := {};
    }

    /** The notify step of one poll: returns the toast texts raised, in
        order, and adds the notified message ids. */
    method Notify(conversations: seq<Conversation>, doctorId: string) returns (toasts: seq<string>)
      modifies this
      ensures PollResult(toasts, ids) == Poll(conversations, doctorId, old(ids))
      ensures old(ids) <= ids
    {
      toasts := [];
      for i := 0 to |conversations|
        invariant PollResult(toasts, ids) == Poll(conversations[..i], doctorId, old(ids))
        invariant old(ids) <= ids
      {
        assert conversations[..i + 1][..i] == conversations[..i];
        var convo := conversations[i];
        if convo.unreadCount > 0 && convo.lastMessage.senderId != doctorId && convo.lastMessage.id !in ids {
          toasts := toasts + [ToastText(convo)];
          ids := ids + {convo.lastMessage.id};
        }
      }
      assert conversations[..|conversations|] == conversations;
    }
  }
}
