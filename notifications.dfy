/**
 * Who is notified of what. Each notification helper decides whether a message
 * is sent at all (the actor is never notified of their own action), who
 * receives it, and which message name and language-string keys it carries;
 * mod_studentquiz_send_notification then hands the message to message_send,
 * which is the parameter `send` here. Message texts are not modelled.
 */
module Notifications {
  import opened Wrappers
  import Approval

  type UserId = int

  const Component: string := "mod_studentquiz"

  /** The fields of a question record the helpers read. */
  datatype QuestionRecord = QuestionRecord(id: int, name: string, createdby: UserId)

  /** The fields of a comment record the helpers read. */
  datatype CommentRecord = CommentRecord(id: int, questionid: int, userid: UserId, text: string)

  /** The message handed to message_send, with the keys of its three language strings. */
  datatype Message = Message(component: string, name: string, userfrom: UserId, userto: UserId,
                             subjectKey: string, smallKey: string, bodyKey: string)

  /** The key of a message's language string: "email", the event name, then the part. */
  function StringKey(event: string, part: string): string {
    "email" + event + part
  }

  /** mod_studentquiz_send_notification, up to message_send. */
  function BuildMessage(event: string, recipient: UserId, submitter: UserId): (m: Message)
    ensures m.component == Component && m.name == event
    ensures m.userto == recipient && m.userfrom == submitter
    ensures m.subjectKey == StringKey(event, "subject")
    ensures m.smallKey == StringKey(event, "small") && m.bodyKey == StringKey(event, "body")
  {
    Message(Component, event, submitter, recipient,
            StringKey(event, "subject"), StringKey(event, "small"), StringKey(event, "body"))
  }

  /** A string key determines the event it was built from. */
  lemma StringKeyInjective(e1: string, e2: string, part: string)
    requires StringKey(e1, part) == StringKey(e2, part)
    ensures e1 == e2
  {
    var k := StringKey(e1, part);
    assert |e1| == |e2|;
    assert k[5..5 + |e1|] == e1;
    assert StringKey(e2, part)[5..5 + |e2|] == e2;
  }

  /** Subject, small-message and body keys never coincide, whatever the events. */
  lemma StringKeyPartsDistinct(e1: string, e2: string)
    ensures StringKey(e1, "subject") != StringKey(e2, "small")
    ensures StringKey(e1, "subject") != StringKey(e2, "body")
    ensures StringKey(e1, "small") != StringKey(e2, "body")
  {
    var s, m, b := StringKey(e1, "subject"), StringKey(e2, "small"), StringKey(e2, "body");
    assert s[|s| - 1] == 't';
    assert m[|m| - 1] == 'l';
    assert b[|b| - 1] == 'y';
    var m1 := StringKey(e1, "small");
    assert m1[|m1| - 1] == 'l';
  }

  /** mod_studentquiz_event_notification_question: to the question's creator, unless that is the actor. */
  function QuestionNotification(event: string, question: QuestionRecord, actor: UserId): (m: Option<Message>)
    ensures m.Some? <==> question.createdby != actor
    ensures m.Some? ==> m.value == BuildMessage(event, question.createdby, actor)
  {
    if question.createdby != actor then Some(BuildMessage(event, question.createdby, actor)) else None
  }

  /**
   * mod_studentquiz_event_notification_comment: to the question's creator, unless
   * that is the actor or the commenter (who then gets only the "minecomment" message).
   */
  function CommentNotification(event: string, comment: CommentRecord, question: QuestionRecord, actor: UserId)
    : (m: Option<Message>)
    ensures m.Some? <==> question.createdby != actor && comment.userid != question.createdby
    ensures m.Some? ==> m.value == BuildMessage("comment" + event, question.createdby, actor)
  {
    if question.createdby != actor && comment.userid != question.createdby
    then Some(BuildMessage("comment" + event, question.createdby, actor))
    else None
  }

  /** mod_studentquiz_event_notification_minecomment: to the commenter, unless that is the actor. */
  function MineCommentNotification(event: string, comment: CommentRecord, actor: UserId): (m: Option<Message>)
    ensures m.Some? <==> comment.userid != actor
    ensures m.Some? ==> m.value == BuildMessage("minecomment" + event, comment.userid, actor)
  {
    if comment.userid != actor then Some(BuildMessage("minecomment" + event, comment.userid, actor)) else None
  }

  /** The helpers' result: false when suppressed, otherwise what message_send answered. */
  function Sent(m: Option<Message>, send: Message -> bool): bool {
    m.Some? && send(m.value)
  }

  /** The approval event of mod_studentquiz_notify_approved: "approved" when the stored flag is true. */
  function ApprovalEvent(flag: Option<int>): (event: string)
    ensures event == "approved" <==> flag.Some? && Approval.IsApproved(flag.value)
    ensures event == "approved" || event == "unapproved"
  {
    if flag.Some? && Approval.IsApproved(flag.value) then "approved" else "unapproved"
  }

  function NotifyChanged(question: QuestionRecord, actor: UserId, send: Message -> bool): (ok: bool)
    ensures ok <==> question.createdby != actor && send(BuildMessage("changed", question.createdby, actor))
  {
    Sent(QuestionNotification("changed", question, actor), send)
  }

  function NotifyDeleted(question: QuestionRecord, actor: UserId, send: Message -> bool): (ok: bool)
    ensures ok <==> question.createdby != actor && send(BuildMessage("deleted", question.createdby, actor))
  {
    Sent(QuestionNotification("deleted", question, actor), send)
  }

  /** mod_studentquiz_notify_approved: the event follows the question's stored approval flag. */
  function NotifyApproved(table: map<Approval.QuestionId, int>, question: QuestionRecord, actor: UserId,
                          send: Message -> bool): (ok: bool)
    ensures ok <==> question.createdby != actor
                    && send(BuildMessage(ApprovalEvent(Approval.StoredFlag(table, question.id)),
                                         question.createdby, actor))
  {
    Sent(QuestionNotification(ApprovalEvent(Approval.StoredFlag(table, question.id)), question, actor), send)
  }

  function NotifyCommentAdded(comment: CommentRecord, question: QuestionRecord, actor: UserId,
                              send: Message -> bool): (ok: bool)
    ensures ok <==> question.createdby != actor && comment.userid != question.createdby
                    && send(BuildMessage("commentadded", question.createdby, actor))
  {
    assert "comment" + "added" == "commentadded";
    Sent(CommentNotification("added", comment, question, actor), send)
  }

  /** mod_studentquiz_notify_comment_deleted: succeeds when either of its two sends succeeds. */
  function NotifyCommentDeleted(comment: CommentRecord, question: QuestionRecord, actor: UserId,
                                send: Message -> bool): (ok: bool)
    ensures ok <==> Sent(CommentNotification("deleted", comment, question, actor), send)
                    || Sent(MineCommentNotification("deleted", comment, actor), send)
    ensures ok ==> comment.userid != actor || question.createdby != actor
  {
    var toAuthor := Sent(CommentNotification("deleted", comment, question, actor), send);
    var toCommenter := Sent(MineCommentNotification("deleted", comment, actor), send);
    toAuthor || toCommenter
  }

  /** No helper ever addresses a message to the user who acted. */
  lemma NeverToActor(event: string, comment: CommentRecord, question: QuestionRecord, actor: UserId)
    ensures forall m :: m in [QuestionNotification(event, question, actor),
                              CommentNotification(event, comment, question, actor),
                              MineCommentNotification(event, comment, actor)] && m.Some?
                        ==> m.value.userto != actor && m.value.userfrom == actor
  {
  }

  /**
   * On a deletion the two messages go to different users under different
   * names, so nobody is told twice.
   */
  lemma DeletionNotifiesEachUserOnce(comment: CommentRecord, question: QuestionRecord, actor: UserId)
    requires CommentNotification("deleted", comment, question, actor).Some?
    requires MineCommentNotification("deleted", comment, actor).Some?
    ensures CommentNotification("deleted", comment, question, actor).value.userto
         != MineCommentNotification("deleted", comment, actor).value.userto
    ensures CommentNotification("deleted", comment, question, actor).value.name
         != MineCommentNotification("deleted", comment, actor).value.name
  {
    assert ("comment" + "deleted")[0] != ("minecomment" + "deleted")[0];
  }

  /** A commenter who created the question gets only the "minecomment" message, when someone else acts. */
  lemma CommenterIsCreator(event: string, comment: CommentRecord, question: QuestionRecord, actor: UserId)
    requires comment.userid == question.createdby && actor != comment.userid
    ensures CommentNotification(event, comment, question, actor).None?
    ensures MineCommentNotification(event, comment, actor).Some?
    ensures MineCommentNotification(event, comment, actor).value.userto == question.createdby
  {
  }

  /** Flipping a recorded flag switches the event mod_studentquiz_notify_approved sends. */
  lemma FlipSwitchesApprovalEvent(table: map<Approval.QuestionId, int>, q: Approval.QuestionId)
    requires q in table
    ensures ApprovalEvent(Approval.StoredFlag(Approval.Flipped(table, q), q))
         != ApprovalEvent(Approval.StoredFlag(table, q))
  {
  }

  /**
   * The event follows the stored flag: "approved" exactly for a recorded true
   * flag, so a question without a record, or with a freshly ensured one, is "unapproved".
   */
  lemma ApprovalEventOfStoredFlag(table: map<Approval.QuestionId, int>, q: Approval.QuestionId)
    ensures ApprovalEvent(Approval.StoredFlag(table, q)) == "approved" <==> q in table && table[q] != 0
    ensures q !in table ==> ApprovalEvent(Approval.StoredFlag(Approval.Ensured(table, q), q)) == "unapproved"
  {
  }
}
