# StudentQuiz helper logic in Dafny

StudentQuiz is a Moodle activity module where students write, rate and comment on
each other's questions. Almost all of its internal library `locallib.php` talks to
Moodle's database, question engine and messaging subsystem. This project models the
parts of that library that decide something on their own:

- **Raw-submit id extraction** (`RawSubmit`): from the submitted form fields, keep the
  digit suffix of every key of the form `q<digits>`, in submission order. Answer "none"
  (PHP `false`) when no key has that form.
- **Comment-list presentation** (`Comments`): for each comment of a question, in
  creation order, decide four things:
  - whether the viewer gets the remove action;
  - whether the author's real name is shown, or an anonymous number;
  - which number an anonymous author gets: their position among the distinct authors
    in order of first appearance;
  - whether the comment starts hidden.

  Also decide whether the show-more / show-less controls follow the list. The loop
  keeps the source's two pieces of state: the list of author ids and the position counter.
- **Parent-category selection** (`QuestionCategories`): a category whose parent is the
  placeholder -1 is attached to the candidate root category with the lowest id.
- **Tag grouping** (`Tags`): the tag rows of the requested questions, grouped by question id.
- **The approval flag** (`Approval`): the `studentquiz_question` table is a class over a
  map from question id to the stored flag. Flipping and "ensure a record" are its two
  writes, each specified by a function on the map.
- **Notification gating** (`Notifications`): for each notification, whether it is sent
  and to whom, and which message name and language-string keys it uses. The actor is
  never notified of their own action.
- **Question-type listing** (`QuestionTypes`): every creatable type except `randomsamatch`.

Database reads are parameters:
- the comment rows;
- the category record and the candidate root categories;
- the joined tag rows;
- the question and comment records;
- the approval table.

`message_send` is the parameter `send: Message -> bool`. The question bank's list of
creatable types, with their local names, is a parameter.

## Model

| member | source | states |
|---|---|---|
| `RawSubmit.Capture` | locallib.php:456 | The pattern read as an exact match. It captures exactly when the key is `q` followed by one or more ASCII digits. The captured id is all digits and `"q" + id` rebuilds the key. |
| `RawSubmit.CaptureAsWritten` | locallib.php:456 | The pattern as PCRE evaluates it. The capture is always all digits. On every key that does not end in a newline it agrees with `Capture`. |
| `RawSubmit.TrailingNewlineAccepted` | locallib.php:456 | The key `"q7\n"` is accepted as written and yields id `"7"`. `"q7"` is not the key, and the exact reading rejects the key. |
| `RawSubmit.Ids` | locallib.php:455-459 | The collected ids number at most the fields. Each id is all digits, and `"q" + id` is the key of some field. The list is empty exactly when no key has the form `q<digits>`. |
| `RawSubmit.IdsAppend` | locallib.php:455-459 | Submission order is kept: the ids of `a + b` are the ids of `a` followed by those of `b`. |
| `RawSubmit.IdKeyContributes` | locallib.php:455-459 | Every `q<digits>` key contributes its digit suffix to the result. |
| `RawSubmit.GetIdsByRawSubmit` | locallib.php:450-464 | The loop returns none exactly when no key matches. Otherwise it returns the non-empty list `Ids(rawdata)`. |
| `Comments.Distinct` | locallib.php:540-543 | The kept author ids are exactly the ids that occur, and no id appears twice. |
| `Comments.IndexOf` | locallib.php:551 | Like `array_search`, it returns the first position holding the id. |
| `Comments.CommentRenderer` | locallib.php:522-581 | Keeping `$authorids` and `$num` through the loop gives exactly the reference rendering `Render`. |
| `Comments.RenderDecisions` | locallib.php:535-578 | For each comment: `canEdit` holds iff the viewer is a moderator or the author. The real name is shown iff anonymisation is off or the viewer is the author; otherwise the anonymous number is shown. The comment is hidden iff its 0-based position is at least 2. The controls follow iff there are more than 2 comments. |
| `Comments.RenderEmpty` | locallib.php:528-530 | The "no comments" notice, and nothing else, comes exactly for an empty list. |
| `Comments.AnonymousNumberRange` | locallib.php:540-552 | A number lies between 1 and the count of distinct authors seen up to that comment. It is at most the count of distinct authors overall. |
| `Comments.SameAuthorSameNumber` | locallib.php:540-552 | All comments by the same author get the same number. |
| `Comments.DifferentAuthorsDifferentNumbers` | locallib.php:540-552 | Comments by different authors get different numbers. |
| `Comments.FirstAppearanceGetsNextNumber` | locallib.php:540-552 | An author seen for the first time gets the count of earlier distinct authors plus one. |
| `QuestionCategories.CheckQuestionCategory` | locallib.php:471-493 | The record is written back exactly when it exists, its parent is -1 and there is at least one candidate. The written record differs only in its parent, which is a candidate id at most every candidate id. |
| `QuestionCategories.LowestIdUnique` | locallib.php:481-489 | The lowest candidate id is unique, so the chosen parent does not depend on the order of the candidates. |
| `Tags.Selected` | locallib.php:1019-1025 | A row is returned iff it is the projection of some instance whose item type is `question` and whose item id was requested. |
| `Tags.SelectedAppend` | locallib.php:1019-1025 | The query keeps table order: selecting from `a + b` gives the rows of `a` followed by those of `b`. |
| `Tags.RowsFor` | locallib.php:1026-1031 | A group holds exactly the rows with that item id. |
| `Tags.RowsForAppend` | locallib.php:1026-1031 | Grouping keeps input order: the group of `a + b` is the group of `a` followed by that of `b`. |
| `Tags.RowsForCount` | locallib.php:1026-1031 | Each row occurs in its own item's group as often as in the input, and in no other group. |
| `Tags.GroupByItem` | locallib.php:1026-1032 | The keys are exactly the item ids that occur. Each group is the non-empty, order-preserving `RowsFor` of its key. |
| `Tags.GetTagsByQuestionIds` | locallib.php:1012-1033 | An empty id list gives an empty map. The keys are requested ids, namely the item ids of the selected rows. Each group is that item's selected rows, in order. |
| `Approval.Negate` | locallib.php:86 | `!$approved` stores 0 or 1, and its truth is the opposite of the old flag's truth. |
| `Approval.Flipped` | locallib.php:80-87 | Flipping keeps the set of records and changes no other question's flag. A recorded flag's truth is inverted. |
| `Approval.Ensured` | locallib.php:1000-1006 | Ensuring adds the question's record if it was missing, and keeps every existing record. A newly inserted record has approved = 0. |
| `Approval.FlipTwice` | locallib.php:83-86 | Flipping a 0/1 flag twice, or a missing record, restores the table. |
| `Approval.FlipTwiceNormalises` | locallib.php:86 | A flag holding any other true value comes back as 1 after two flips. |
| `Approval.EnsureIdempotent` | locallib.php:1003-1004 | Ensuring a record twice is the same as ensuring it once. |
| `Approval.WritesKeepNormalised` | locallib.php:80-87 | Flipping keeps every flag 0 or 1, and so does the insert at line 1004. |
| `Approval.StudentQuizQuestions.FlipApproved` | locallib.php:80-87 | The table after the call is `Flipped` of the table before it. |
| `Approval.StudentQuizQuestions.EnsureQuestionRecord` | locallib.php:1000-1006 | The table after the call is `Ensured` of the table before it. |
| `Notifications.BuildMessage` | locallib.php:311-337 | The message's component is `mod_studentquiz` and its name is the event. It goes from the submitter to the recipient. Its subject, small and body keys are `email` + event + `subject`, `small` and `body`. |
| `Notifications.StringKeyInjective` | locallib.php:326-328 | A language-string key determines the event it was built from. |
| `Notifications.StringKeyPartsDistinct` | locallib.php:326-328 | Subject, small and body keys never coincide, for any two events. |
| `Notifications.QuestionNotification` | locallib.php:225-239 | A message is produced iff the question's creator is not the actor. It goes from the actor to the creator under the event's name. |
| `Notifications.CommentNotification` | locallib.php:250-270 | A message is produced iff the question's creator is neither the actor nor the commenter. It goes to the creator, named `comment` + event. |
| `Notifications.MineCommentNotification` | locallib.php:280-299 | A message is produced iff the commenter is not the actor. It goes to the commenter, named `minecomment` + event. |
| `Notifications.ApprovalEvent` | locallib.php:182-187 | The event is `approved` iff a record exists and its flag is true; otherwise it is `unapproved`. |
| `Notifications.NotifyChanged` | locallib.php:160-162 | Succeeds iff the creator is not the actor and the `changed` message to the creator is delivered. |
| `Notifications.NotifyDeleted` | locallib.php:171-173 | Succeeds iff the creator is not the actor and the `deleted` message to the creator is delivered. |
| `Notifications.NotifyApproved` | locallib.php:182-187 | Succeeds iff the creator is not the actor and the message to the creator, named by the event the stored flag chooses, is delivered. |
| `Notifications.NotifyCommentAdded` | locallib.php:195-199 | Succeeds iff the question's creator is neither the actor nor the commenter and the `commentadded` message from the actor to the creator is delivered. |
| `Notifications.NotifyCommentDeleted` | locallib.php:210-214 | Succeeds iff either of its two sends succeeds. It never succeeds when the actor is both the commenter and the question's creator. |
| `Notifications.NeverToActor` | locallib.php:225-299 | No notification helper addresses a message to the acting user. Every message is sent by that user. |
| `Notifications.DeletionNotifiesEachUserOnce` | locallib.php:210-214 | When both deletion messages are produced, they go to different users under different names. |
| `Notifications.CommenterIsCreator` | locallib.php:255-258 | A commenter who created the question is sent only the `minecomment` message, when someone else acts. |
| `Notifications.FlipSwitchesApprovalEvent` | locallib.php:182-186 | Flipping a recorded flag switches the event read from the table between `approved` and `unapproved`. |
| `Notifications.ApprovalEventOfStoredFlag` | locallib.php:182-186 | The event read from the table is `approved` iff the question has a record with a true flag. A question whose record was just inserted gets `unapproved`. |
| `QuestionTypes.AvailableTypes` | locallib.php:847-857 | A type is listed iff it is creatable and not `randomsamatch`. Without `randomsamatch` the list is unchanged. |
| `QuestionTypes.AvailableTypesAppend` | locallib.php:850-855 | Listing keeps the question bank's order. |
| `QuestionTypes.AvailableTypesCount` | locallib.php:852 | Exactly the `randomsamatch` entries are dropped. |

## Findings

| source | as written | input that shows it | evidently intended | confidence | as-written member | corrected member |
|---|---|---|---|---|---|---|
| locallib.php:456 | `preg_match('!^q([0-9]+)$!', $key)` without the `D` modifier, so `$` also matches before a final newline | key `"q7\n"` yields id `"7"`, and `"q" + "7"` is not the key | only keys that are exactly `q<digits>` (`\z`, or the `D` modifier) | not executed; follows from PCRE's documented meaning of `$` | `RawSubmit.CaptureAsWritten`, `RawSubmit.TrailingNewlineAccepted` | `RawSubmit.Capture`, used by `RawSubmit.Ids` and `RawSubmit.GetIdsByRawSubmit` |

## Left out

- Database access and SQL are not modelled. This covers the ranking, community, user and question statistics and the attempt joins (locallib.php:591-841, 1035-1085), along with every record read and write. They become parameters and maps. The points formula also uses `ROUND`/`AVG` over decimal ratings.
- `mod_studentquiz_generate_attempt` is not modelled. It relies on `shuffle`, which is random, and on the question engine, which is outside this model.
- The data migration, capability assignment, default-category creation, event triggering, completion and context/capability lookups are not modelled. They are framework calls with no decision logic of their own.
- Message text is not modelled: `mod_studentquiz_prepare_notify_data`, `userdate`, `fullname`, `moodle_url`, `get_string` and the template data. Only the message name, the recipient, the sender and the string keys are modelled. The template field `actorusername` is filled from the recipient at line 149, and the model does not describe that field.
- `message_send` is the parameter `send`. Its `int|false` result is read as its truth value.
- The helpers look up the question record by id. A missing question record is not modelled: the records are passed in.
- The unused `$othercapability` argument of `mod_studentquiz_event_notification_question` is not modelled.
- The HTML that the comment renderer builds is not modelled. The formatted comment date and the localised "anonymous" label are not modelled either. The model keeps the decisions and the raw creation time.
- `RawSubmit.GetIdsByRawSubmit`: a PHP `null` argument cannot be passed to the model, so the early-return test at line 451 is not modelled. For `null` and for an empty array alike, the helper returns `false`, and the model returns none for an empty sequence. Field values are carried but never read, as in the source.
- `Tags.GetTagsByQuestionIds`: the database returns rows in an order the query does not fix. The model takes the rows in the order given. The rows are keyed by their unique `ti.id`, so no row collapses onto another.
- `Approval.StudentQuizQuestions`: the table has at most one record per question id. When several records exist, `count_records` would count more than one and `set_field` would update them all.
- `QuestionTypes.AvailableTypes`: the result is an ordered list of (identifier, local name) pairs, not a PHP array keyed by identifier. The question bank's identifiers are distinct, so the two carry the same content.
