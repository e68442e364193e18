/**
 * The decisions mod_studentquiz_comment_renderer takes for each comment of a
 * question, in creation order: whether the viewer gets the remove action,
 * whether the author's real name or an anonymous number is shown, which number
 * that is, and whether the comment starts hidden; and whether the show-more /
 * show-less controls follow. The HTML itself is not modelled.
 */
module Comments {
  type UserId = int

  /** A comment row joined with its author's first and last name. */
  datatype Comment = Comment(id: int, questionid: int, userid: UserId,
                             firstname: string, lastname: string, created: int, text: string)

  /** How the author of a comment is presented. */
  datatype AuthorLabel = RealName(name: string) | Anonymous(number: nat)

  /** The decisions taken for one comment. */
  datatype CommentView = CommentView(commentId: int, questionId: int, canEdit: bool,
                                     author: AuthorLabel, created: int, text: string, hidden: bool)

  /** The rendering: the "no comments" notice, or the comments and whether the controls follow. */
  datatype Rendering = NoComments | Listing(views: seq<CommentView>, showMoreControls: bool)

  /** A comment is initially visible only among the first two. */
  const VisibleComments: nat := 2

  function UserIds(cs: seq<Comment>): (ids: seq<UserId>)
    ensures |ids| == |cs| && forall i :: 0 <= i < |cs| ==> ids[i] == cs[i].userid
  {
    seq(|cs|, i requires 0 <= i < |cs| => cs[i].userid)
  }

  predicate NoDuplicates(d: seq<UserId>) {
    forall i, j :: 0 <= i < j < |d| ==> d[i] != d[j]
  }

  /** The distinct elements of `s` in order of first appearance (the renderer's list of author ids). */
  function Distinct(s: seq<UserId>): (d: seq<UserId>)
    ensures forall x :: x in d <==> x in s
    ensures NoDuplicates(d)
    ensures |d| <= |s|
  {
    if s == [] then []
    else
      var init := s[..|s| - 1];
      assert forall x :: x in s <==> x in init || x == s[|s| - 1];
      var d := Distinct(init);
      if s[|s| - 1] in d then d else d + [s[|s| - 1]]
  }

  /** The first position of `x` in `d`, as array_search finds it. */
  function IndexOf(d: seq<UserId>, x: UserId): (k: nat)
    requires x in d
    ensures k < |d| && d[k] == x
    ensures forall j :: 0 <= j < k ==> d[j] != x
  {
    if d[0] == x then 0 else 1 + IndexOf(d[1..], x)
  }

  /** The anonymous number the author of comment `i` is shown with: 1 + their index in the author list. */
  function AnonymousNumber(cs: seq<Comment>, i: nat): nat
    requires i < |cs|
  {
    var seen := UserIds(cs)[..i + 1];
    assert seen[i] == cs[i].userid;
    1 + IndexOf(Distinct(seen), cs[i].userid)
  }

  /** The decisions for comment `i`, viewed by `viewer`. */
  function ViewAt(cs: seq<Comment>, i: nat, viewer: UserId, anonymize: bool, isModerator: bool): CommentView
    requires i < |cs|
  {
    var c := cs[i];
    var canEdit := isModerator || c.userid == viewer;
    var seeName := !anonymize || c.userid == viewer;
    CommentView(c.id, c.questionid, canEdit,
                if seeName then RealName(c.firstname + " " + c.lastname) else Anonymous(AnonymousNumber(cs, i)),
                c.created, c.text, i >= VisibleComments)
  }

  /** The decisions for the first `n` comments. */
  function Views(cs: seq<Comment>, n: nat, viewer: UserId, anonymize: bool, isModerator: bool): seq<CommentView>
    requires n <= |cs|
  {
    if n == 0 then [] else Views(cs, n - 1, viewer, anonymize, isModerator) + [ViewAt(cs, n - 1, viewer, anonymize, isModerator)]
  }

  /** The reference rendering of a comment list, position by position. */
  function Render(cs: seq<Comment>, viewer: UserId, anonymize: bool, isModerator: bool): Rendering {
    if |cs| == 0 then NoComments
    else Listing(Views(cs, |cs|, viewer, anonymize, isModerator), |cs| > VisibleComments)
  }

  /** Position `i` of the rendering holds the decisions for comment `i`. */
  lemma {:induction false} ViewsAt(cs: seq<Comment>, n: nat, viewer: UserId, anonymize: bool, isModerator: bool, i: nat)
    requires i < n <= |cs|
    ensures |Views(cs, n, viewer, anonymize, isModerator)| == n
    ensures Views(cs, n, viewer, anonymize, isModerator)[i] == ViewAt(cs, i, viewer, anonymize, isModerator)
  {
    if i < n - 1 {
      ViewsAt(cs, n - 1, viewer, anonymize, isModerator, i);
    } else if n > 1 {
      ViewsAt(cs, n - 1, viewer, anonymize, isModerator, 0);
    }
  }

  /**
   * mod_studentquiz_comment_renderer: one pass over the comments that keeps
   * the distinct author ids seen so far and the position counter.
   */
  method CommentRenderer(comments: seq<Comment>, userid: UserId, anonymize: bool, isModerator: bool)
    returns (r: Rendering)
    ensures r == Render(comments, userid, anonymize, isModerator)
  {
    if |comments| == 0 {
      return NoComments;
    }
    var authorids: seq<UserId> := [];
    var output: seq<CommentView> := [];
    var num := 0;
    while num < |comments|
      invariant 0 <= num <= |comments|
      invariant authorids == Distinct(UserIds(comments)[..num])
      invariant output == Views(comments, num, userid, anonymize, isModerator)
    {
      var comment := comments[num];
      var canedit := isModerator || comment.userid == userid;
      var seename := !anonymize || comment.userid == userid;
      if comment.userid !in authorids {
        authorids := authorids + [comment.userid];
      }
      assert authorids == Distinct(UserIds(comments)[..num + 1]) by {
        AuthorStep(comments, num);
      }
      var username: AuthorLabel;
      if seename {
        username := RealName(comment.firstname + " " + comment.lastname);
      } else {
        assert 1 + IndexOf(authorids, comment.userid) == AnonymousNumber(comments, num) by {
          AnonymousNumberStep(comments, num, authorids);
        }
        username := Anonymous(1 + IndexOf(authorids, comment.userid));
      }
      var view := CommentView(comment.id, comment.questionid, canedit, username,
                              comment.created, comment.text, num >= VisibleComments);
      assert output + [view] == Views(comments, num + 1, userid, anonymize, isModerator);
      output := output + [view];
      num := num + 1;
    }
    r := Listing(output, |comments| > VisibleComments);
  }

  /** Once comment `n` is recorded, its author's index in the author list gives its number. */
  lemma AnonymousNumberStep(cs: seq<Comment>, n: nat, authorids: seq<UserId>)
    requires n < |cs| && authorids == Distinct(UserIds(cs)[..n + 1])
    ensures cs[n].userid in authorids
    ensures 1 + IndexOf(authorids, cs[n].userid) == AnonymousNumber(cs, n)
  {
    assert UserIds(cs)[..n + 1][n] == cs[n].userid;
  }

  /** How the author list grows by one comment. */
  lemma AuthorStep(cs: seq<Comment>, n: nat)
    requires n < |cs|
    ensures var d := Distinct(UserIds(cs)[..n]);
      Distinct(UserIds(cs)[..n + 1]) == if cs[n].userid in d then d else d + [cs[n].userid]
  {
    var seen := UserIds(cs)[..n + 1];
    assert seen[..n] == UserIds(cs)[..n];
  }

  /** The per-comment rules: edit right, name visibility, initial visibility, controls. */
  lemma RenderDecisions(cs: seq<Comment>, viewer: UserId, anonymize: bool, isModerator: bool, i: nat)
    requires i < |cs|
    ensures Render(cs, viewer, anonymize, isModerator).Listing?
    ensures var r := Render(cs, viewer, anonymize, isModerator);
      && |r.views| == |cs|
      && (r.views[i].canEdit <==> isModerator || cs[i].userid == viewer)
      && (r.views[i].author.RealName? <==> !anonymize || cs[i].userid == viewer)
      && (r.views[i].author.Anonymous? ==> r.views[i].author.number == AnonymousNumber(cs, i))
      && (r.views[i].hidden <==> i >= 2)
      && (r.showMoreControls <==> |cs| > 2)
      && r.views[i].commentId == cs[i].id
  {
    ViewsAt(cs, |cs|, viewer, anonymize, isModerator, i);
  }

  /** An empty list yields only the "no comments" notice. */
  lemma RenderEmpty(cs: seq<Comment>, viewer: UserId, anonymize: bool, isModerator: bool)
    ensures Render(cs, viewer, anonymize, isModerator) == NoComments <==> cs == []
  {
  }

  /** Distinct of a prefix is a prefix of Distinct of a longer prefix. */
  lemma {:induction false} DistinctPrefix(s: seq<UserId>, m: nat, n: nat)
    requires m <= n <= |s|
    ensures Distinct(s[..m]) <= Distinct(s[..n])
    decreases n - m
  {
    if m < n {
      DistinctPrefix(s, m, n - 1);
      assert s[..n][..n - 1] == s[..n - 1];
    }
  }

  /** A first position found in a prefix is the first position in the whole sequence. */
  lemma IndexOfPrefix(p: seq<UserId>, q: seq<UserId>, x: UserId)
    requires x in p && p <= q
    ensures x in q && IndexOf(p, x) == IndexOf(q, x)
  {
    assert q[IndexOf(p, x)] == x;
    assert forall j :: 0 <= j < IndexOf(p, x) ==> q[j] == p[j];
  }

  /** Numbers lie between 1 and the count of distinct authors seen up to that comment. */
  lemma AnonymousNumberRange(cs: seq<Comment>, i: nat)
    requires i < |cs|
    ensures 1 <= AnonymousNumber(cs, i) <= |Distinct(UserIds(cs)[..i + 1])|
    ensures AnonymousNumber(cs, i) <= |Distinct(UserIds(cs))|
  {
    var s := UserIds(cs);
    DistinctPrefix(s, i + 1, |s|);
    assert s[..|s|] == s;
  }

  /** The number of comment `i`, computed from the full author list instead of its prefix. */
  lemma {:induction false} AnonymousNumberGlobal(cs: seq<Comment>, i: nat)
    requires i < |cs|
    ensures cs[i].userid in Distinct(UserIds(cs))
    ensures AnonymousNumber(cs, i) == 1 + IndexOf(Distinct(UserIds(cs)), cs[i].userid)
  {
    var s := UserIds(cs);
    assert s[..i + 1][i] == cs[i].userid;
    DistinctPrefix(s, i + 1, |s|);
    assert s[..|s|] == s;
    IndexOfPrefix(Distinct(s[..i + 1]), Distinct(s), cs[i].userid);
  }

  /** Every comment by the same author gets the same number. */
  lemma {:induction false} SameAuthorSameNumber(cs: seq<Comment>, i: nat, j: nat)
    requires i < |cs| && j < |cs| && cs[i].userid == cs[j].userid
    ensures AnonymousNumber(cs, i) == AnonymousNumber(cs, j)
  {
    AnonymousNumberGlobal(cs, i);
    AnonymousNumberGlobal(cs, j);
  }

  /** Different authors get different numbers. */
  lemma {:induction false} DifferentAuthorsDifferentNumbers(cs: seq<Comment>, i: nat, j: nat)
    requires i < |cs| && j < |cs| && cs[i].userid != cs[j].userid
    ensures AnonymousNumber(cs, i) != AnonymousNumber(cs, j)
  {
    AnonymousNumberGlobal(cs, i);
    AnonymousNumberGlobal(cs, j);
  }

  /** An author appearing for the first time gets the next unused number. */
  lemma {:induction false} FirstAppearanceGetsNextNumber(cs: seq<Comment>, i: nat)
    requires i < |cs| && cs[i].userid !in UserIds(cs)[..i]
    ensures AnonymousNumber(cs, i) == |Distinct(UserIds(cs)[..i])| + 1
  {
    var s := UserIds(cs);
    var seen := s[..i + 1];
    assert seen[..|seen| - 1] == s[..i];
    assert seen[|seen| - 1] == cs[i].userid;
    var d := Distinct(s[..i]);
    assert Distinct(seen) == d + [cs[i].userid];
  }
}
