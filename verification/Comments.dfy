/** Posting inline comments for findings on a pull request, at places that have none yet. */
module Comments {
  import opened Text
  import opened Findings

  datatype Body = Suggestion(fix: string) | DeleteLines | Plain

  /** `startLine` is 0 for a comment on a single line. */
  datatype Comment = Comment(path: string, line: nat, startLine: nat, body: Body)

  type Place = (string, nat)

  function PlaceOf(f: Finding): Place {
    (f.file, f.End())
  }

  function CommentFor(f: Finding): Comment {
    Comment(f.file, f.End(), if f.End() > f.Start() then f.Start() else 0,
            if !f.HasFix() then Plain
            else if f.fixIsDeletion then DeleteLines else Suggestion(f.fix))
  }

  function Places(comments: seq<Comment>): set<Place> {
    set c | c in comments :: (c.path, c.line)
  }

  /** The comments that a pass for findings with a fix, or without one, still has to post. */
  function Pending(findings: seq<Finding>, existing: set<Place>, withFix: bool): seq<Comment> {
    if findings == [] then []
    else
      var f := findings[|findings| - 1];
      Pending(findings[..|findings| - 1], existing, withFix)
      + if f.HasFix() == withFix && PlaceOf(f) !in existing then [CommentFor(f)] else []
  }

  /** The comments that are on the pull request. */
  class PullRequest {
    var comments: seq<Comment>

    constructor ()
      ensures comments == []
    {
      comments := [];
    }

    method ListReviewComments() returns (listed: seq<Comment>)
      ensures listed == comments
    {
      listed := comments;
    }

    method CreateReviewComment(c: Comment)
      modifies this
      ensures comments == old(comments) + [c]
    {
      comments := comments + [c];
    }
  }

  method PostFixSuggestions(pr: PullRequest, findings: seq<Finding>) returns (posted: nat)
    modifies pr
    ensures pr.comments == old(pr.comments) + Pending(findings, Places(old(pr.comments)), true)
    ensures posted == |pr.comments| - |old(pr.comments)|
  {
    hide Finding.HasFix;
    var listed := pr.ListReviewComments();
    var existing := set c | c in listed :: (c.path, c.line);
    posted := 0;
    for k := 0 to |findings|
      invariant pr.comments == old(pr.comments) + Pending(findings[..k], existing, true)
      invariant posted == |pr.comments| - |old(pr.comments)|
    {
      var f := findings[k];
      assert findings[..k + 1][..k] == findings[..k];
      if !f.HasFix() {
        continue;
      }
      var start, end := f.Start(), f.End();
      if (f.file, end) in existing {
        continue;
      }
      var body := if f.fixIsDeletion then DeleteLines else Suggestion(f.fix);
      pr.CreateReviewComment(Comment(f.file, end, if end > start then start else 0, body));
      posted := posted + 1;
    }
    assert findings[..|findings|] == findings;
  }

  method PostNoFixComments(pr: PullRequest, findings: seq<Finding>) returns (posted: nat)
    modifies pr
    ensures pr.comments == old(pr.comments) + Pending(findings, Places(old(pr.comments)), false)
    ensures posted == |pr.comments| - |old(pr.comments)|
  {
    hide Finding.HasFix;
    var listed := pr.ListReviewComments();
    var existing := set c | c in listed :: (c.path, c.line);
    posted := 0;
    for k := 0 to |findings|
      invariant pr.comments == old(pr.comments) + Pending(findings[..k], existing, false)
      invariant posted == |pr.comments| - |old(pr.comments)|
    {
      var f := findings[k];
      assert findings[..k + 1][..k] == findings[..k];
      if f.HasFix() {
        continue;
      }
      var start, end := f.Start(), f.End();
      if (f.file, end) in existing {
        continue;
      }
      pr.CreateReviewComment(Comment(f.file, end, if end > start then start else 0, Plain));
      posted := posted + 1;
    }
    assert findings[..|findings|] == findings;
  }

  // ----- Both passes -----

  /** The comments after the pass for fixes and then the pass for findings without one. */
  function AfterBoth(comments: seq<Comment>, findings: seq<Finding>): seq<Comment> {
    var first := comments + Pending(findings, Places(comments), true);
    first + Pending(findings, Places(first), false)
  }

  lemma {:induction false} PendingCovers(findings: seq<Finding>, existing: set<Place>,
                                         withFix: bool, f: Finding)
    requires f in findings && f.HasFix() == withFix
    ensures PlaceOf(f) in existing || CommentFor(f) in Pending(findings, existing, withFix)
  {
    hide Finding.HasFix, CommentFor;
    var front, last := findings[..|findings| - 1], findings[|findings| - 1];
    assert findings == front + [last];
    if f != last {
      PendingCovers(front, existing, withFix, f);
    }
  }

  lemma PlacesGrow(comments: seq<Comment>, more: seq<Comment>)
    ensures Places(comments + more) == Places(comments) + Places(more)
  {
    assert forall c :: c in comments + more <==> c in comments || c in more;
  }

  lemma {:induction false} NothingPending(findings: seq<Finding>, existing: set<Place>, withFix: bool)
    requires forall f | f in findings :: PlaceOf(f) in existing
    ensures Pending(findings, existing, withFix) == []
  {
    hide Finding.HasFix, CommentFor;
    if findings != [] {
      assert findings[|findings| - 1] in findings;
      assert forall f | f in findings[..|findings| - 1] :: f in findings;
      NothingPending(findings[..|findings| - 1], existing, withFix);
    }
  }

  lemma PlaceListed(comments: seq<Comment>, f: Finding)
    ensures CommentFor(f) in comments ==> PlaceOf(f) in Places(comments)
  {
    hide Finding.HasFix;
    assert (CommentFor(f).path, CommentFor(f).line) == PlaceOf(f);
  }

  /** After both passes the last line of every finding's span has a comment, whatever was there
      before, no comment is lost, and running both passes again posts nothing. */
  lemma EveryPlaceIsCommented(comments: seq<Comment>, findings: seq<Finding>)
    ensures var after := AfterBoth(comments, findings);
      && comments <= after
      && (forall f | f in findings :: PlaceOf(f) in Places(after))
      && AfterBoth(after, findings) == after
  {
    hide Finding.HasFix, Pending, Places, CommentFor;
    var fixes := Pending(findings, Places(comments), true);
    var first := comments + fixes;
    var rest := Pending(findings, Places(first), false);
    var after := first + rest;
    PlacesGrow(comments, fixes);
    PlacesGrow(first, rest);
    forall f | f in findings ensures PlaceOf(f) in Places(after) {
      if f.HasFix() {
        PendingCovers(findings, Places(comments), true, f);
        PlaceListed(fixes, f);
      } else {
        PendingCovers(findings, Places(first), false, f);
        PlaceListed(rest, f);
      }
    }
    NothingPending(findings, Places(after), true);
    NothingPending(findings, Places(after), false);
    assert after + [] == after;
  }

  /** A comment that a pass posts belongs to a finding of the right kind at a place that had no
      comment yet. */
  lemma {:induction false} OnlyPendingIsPosted(findings: seq<Finding>, existing: set<Place>,
                                               withFix: bool, c: Comment)
    requires c in Pending(findings, existing, withFix)
    ensures (c.path, c.line) !in existing
    ensures exists f :: f in findings && f.HasFix() == withFix && c == CommentFor(f)
  {
    hide Finding.HasFix;
    var front, last := findings[..|findings| - 1], findings[|findings| - 1];
    assert findings == front + [last];
    if c in Pending(front, existing, withFix) {
      OnlyPendingIsPosted(front, existing, withFix, c);
      var f :| f in front && f.HasFix() == withFix && c == CommentFor(f);
      assert f in findings;
    } else {
      assert last in findings && c == CommentFor(last);
    }
  }

  // ----- Which findings get a comment of their own -----

  /** Some finding with a fix ends where `f` does. */
  ghost predicate FixAtPlace(findings: seq<Finding>, f: Finding) {
    exists g :: g in findings && g.HasFix() && PlaceOf(g) == PlaceOf(f)
  }

  lemma KindOfComment(f: Finding)
    ensures f.HasFix() <==> CommentFor(f).body != Plain
    ensures (CommentFor(f).path, CommentFor(f).line) == PlaceOf(f)
  {
    hide Finding.HasFix;
  }

  lemma PendingExactly(findings: seq<Finding>, existing: set<Place>, withFix: bool, f: Finding)
    requires f in findings
    ensures CommentFor(f) in Pending(findings, existing, withFix)
      <==> f.HasFix() == withFix && PlaceOf(f) !in existing
  {
    hide Finding.HasFix, Pending, CommentFor;
    KindOfComment(f);
    if CommentFor(f) in Pending(findings, existing, withFix) {
      OnlyPendingIsPosted(findings, existing, withFix, CommentFor(f));
      var g :| g in findings && g.HasFix() == withFix && CommentFor(f) == CommentFor(g);
      KindOfComment(g);
    } else if f.HasFix() == withFix {
      PendingCovers(findings, existing, withFix, f);
    }
  }

  /** The places that are taken when the second pass starts. */
  lemma TakenByFirstPass(comments: seq<Comment>, findings: seq<Finding>, f: Finding)
    requires f in findings
    ensures var first := comments + Pending(findings, Places(comments), true);
      PlaceOf(f) in Places(first) <==> PlaceOf(f) in Places(comments) || FixAtPlace(findings, f)
  {
    hide Finding.HasFix, Pending, CommentFor, PlaceOf;
    var fixes := Pending(findings, Places(comments), true);
    PlacesGrow(comments, fixes);
    if PlaceOf(f) in Places(fixes) {
      var c :| c in fixes && (c.path, c.line) == PlaceOf(f);
      OnlyPendingIsPosted(findings, Places(comments), true, c);
      var g :| g in findings && g.HasFix() && c == CommentFor(g);
      KindOfComment(g);
      assert FixAtPlace(findings, f);
    }
    if FixAtPlace(findings, f) && PlaceOf(f) !in Places(comments) {
      var g :| g in findings && g.HasFix() && PlaceOf(g) == PlaceOf(f);
      PendingCovers(findings, Places(comments), true, g);
      PlaceListed(fixes, g);
    }
  }

  /** After both passes a finding has its own comment if and only if that was there before, or
      its place was free and the finding has a fix or none of those with a fix ends there: the
      second pass looks again, and does not tell who has posted the comment that it finds. */
  lemma FindingIsCommentedExactlyWhen(comments: seq<Comment>, findings: seq<Finding>, f: Finding)
    requires f in findings
    ensures CommentFor(f) in AfterBoth(comments, findings)
      <==> CommentFor(f) in comments
           || (PlaceOf(f) !in Places(comments) && (f.HasFix() || !FixAtPlace(findings, f)))
  {
    hide Finding.HasFix, Pending, CommentFor, Places, PlaceOf, FixAtPlace;
    var first := comments + Pending(findings, Places(comments), true);
    PendingExactly(findings, Places(comments), true, f);
    PendingExactly(findings, Places(first), false, f);
    TakenByFirstPass(comments, findings, f);
  }

  lemma PendingTwo(g: Finding, f: Finding, existing: set<Place>, withFix: bool)
    ensures Pending([g, f], existing, withFix)
      == (if g.HasFix() == withFix && PlaceOf(g) !in existing then [CommentFor(g)] else [])
         + (if f.HasFix() == withFix && PlaceOf(f) !in existing then [CommentFor(f)] else [])
  {
    hide Finding.HasFix, CommentFor, PlaceOf;
    assert [g, f][..1] == [g] && [g][..0] == [];
    assert Pending([], existing, withFix) == [];
    assert Pending([g], existing, withFix)
      == if g.HasFix() == withFix && PlaceOf(g) !in existing then [CommentFor(g)] else [];
  }

  lemma NoPlaces()
    ensures Places([]) == {}
  {
  }

  /** A finding without a fix that ends where one with a fix does is swallowed. */
  lemma FindingIsSwallowed(g: Finding, f: Finding)
    requires g.HasFix() && !f.HasFix() && PlaceOf(g) == PlaceOf(f)
    ensures AfterBoth([], [g, f]) == [CommentFor(g)]
    ensures CommentFor(f) !in AfterBoth([], [g, f])
  {
    hide Finding.HasFix, CommentFor, PlaceOf, Pending, Places;
    KindOfComment(f);
    KindOfComment(g);
    NoPlaces();
    var none: seq<Comment>, c := [], CommentFor(g);
    assert c in [c];
    PlaceListed([c], g);
    PendingTwo(g, f, {}, true);
    PendingTwo(g, f, Places([c]), false);
    assert [c] + none == [c] == none + [c] && none + none == none;
    assert Pending([g, f], Places([c]), false) == none;
  }

  /** Two findings with a fix that end at one place get a comment each. */
  lemma SamePlaceTwice(g: Finding, h: Finding)
    requires g.HasFix() && h.HasFix() && PlaceOf(g) == PlaceOf(h)
    ensures AfterBoth([], [g, h]) == [CommentFor(g), CommentFor(h)]
  {
    hide Finding.HasFix, CommentFor, PlaceOf, Pending, Places;
    NoPlaces();
    var none: seq<Comment>, cs := [], [CommentFor(g), CommentFor(h)];
    PendingTwo(g, h, {}, true);
    PendingTwo(g, h, Places(cs), false);
    assert [CommentFor(g)] + [CommentFor(h)] == cs == none + cs == cs + none && none + none == none;
  }

  // ----- What a comment says -----

  ghost predicate Says(c: Comment, f: Finding) {
    && c.line == (if f.endLine > f.line then f.endLine else f.line)
    && c.startLine == (if f.endLine > f.line then f.line else 0)
    && (c.body == DeleteLines <==> f.fixIsDeletion)
    && (c.body == Suggestion(f.fix) <==> !f.fixIsDeletion && !Blank(f.fix))
    && (c.body == Plain <==> !f.fixIsDeletion && Blank(f.fix))
  }

  lemma CommentSays(f: Finding)
    ensures CommentFor(f).path == f.file && Says(CommentFor(f), f)
  {
    hide Blank;
  }

  /** Every comment that the two passes add is for one of the findings: at the last line of its
      range, with the first line if there are several, and with a block that deletes the range or
      replaces it by the fix, or without one when there is neither. */
  lemma PostedCommentsSay(comments: seq<Comment>, findings: seq<Finding>, c: Comment)
    requires c in AfterBoth(comments, findings) && c !in comments
    ensures exists f :: f in findings && c.path == f.file && Says(c, f)
  {
    hide Finding.HasFix, Pending, CommentFor, Places, Says;
    var existing := Places(comments);
    var first := comments + Pending(findings, existing, true);
    var withFix := c in Pending(findings, existing, true);
    OnlyPendingIsPosted(findings, if withFix then existing else Places(first), withFix, c);
    var f :| f in findings && f.HasFix() == withFix && c == CommentFor(f);
    CommentSays(f);
  }
}
