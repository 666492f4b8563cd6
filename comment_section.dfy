/**
 * The threaded comment widget: each comment item keeps a local score and
 * the reader's vote, sends replies only when they have content, indents by
 * depth and summarises hidden replies when collapsed. The sample thread
 * it is rendered with is part of the model.
 */
module CommentSection {

  import Common
  import JsStrings
  import Decimal

  datatype AttachmentType = Image | File | Link

  datatype Attachment = Attachment(
    id: string,
    attachmentType: AttachmentType,
    url: string,
    name: string,
    size: Common.Option<int>,
    thumbnail: Common.Option<string>)

  datatype Comment = Comment(
    id: string,
    author: string,
    content: string,
    timestamp: string,
    score: int,
    replies: seq<Comment>,
    depth: int,
    attachments: Common.Option<seq<Attachment>>)

  /** The reader's vote: `"up" | "down" | null`, the last being `Common.None`. */
  datatype Vote = Up | Down

  /** How far a vote moves the score from the comment's own score. */
  function Weight(v: Common.Option<Vote>): int {
    if v == Common.Some(Up) then 1
    else if v == Common.Some(Down) then -1
    else 0
  }

  /** A call of `onReply(parentId, content, attachments)`. */
  datatype ReplyCall = ReplyCall(parentId: string, content: string, attachments: seq<Attachment>)

  /** The state of one rendered `CommentItem`. */
  class CommentItem {
    const comment: Comment
    var isCollapsed: bool
    var showReplyBox: bool
    var replyContent: string
    var score: int
    var userVote: Common.Option<Vote>
    var replyAttachments: seq<Attachment>
    /** The replies handed to `onReply`, oldest first. */
    var sent: seq<ReplyCall>

    /** The displayed score is always the comment's score moved by the current vote. */
    predicate Valid()
      reads this
    {
      score == comment.score + Weight(userVote)
    }

    constructor (comment: Comment)
      ensures Valid()
      ensures this.comment == comment && score == comment.score && userVote == Common.None
      ensures !isCollapsed && !showReplyBox && replyContent == "" && replyAttachments == [] && sent == []
    {
      this.comment := comment;
      isCollapsed, showReplyBox := false, false;
      replyContent := "";
      score := comment.score;
      userVote := Common.None;
      replyAttachments := [];
      sent := [];
    }

    /**
     * `handleVote(type)` as written: the current vote clicked again is
     * withdrawn; otherwise the previous vote is undone and the new one
     * applied, both starting from the comment's own score, which already
     * leaves out the previous vote.
     */
    method HandleVoteAsWritten(voteType: Vote)
      modifies this
      ensures userVote == (if old(userVote) == Common.Some(voteType) then Common.None else Common.Some(voteType))
      ensures score == ScoreAsWritten(comment.score, old(userVote), voteType)
      ensures isCollapsed == old(isCollapsed) && showReplyBox == old(showReplyBox) &&
              replyContent == old(replyContent) && replyAttachments == old(replyAttachments) && sent == old(sent)
    {
      if userVote == Common.Some(voteType) {
        userVote := Common.None;
        score := comment.score;
      } else {
        var prevVote := userVote;
        userVote := Common.Some(voteType);
        var newScore := comment.score;
        if prevVote == Common.Some(Up) {
          newScore := newScore - 1;
        }
        if prevVote == Common.Some(Down) {
          newScore := newScore + 1;
        }
        if voteType == Up {
          newScore := newScore + 1;
        }
        if voteType == Down {
          newScore := newScore - 1;
        }
        score := newScore;
      }
    }

    /**
     * `handleVote(type)` with the previous vote undone from the displayed
     * score: the displayed score stays the comment's score moved by the
     * current vote.
     */
    method HandleVote(voteType: Vote)
      requires Valid()
      modifies this
      ensures Valid()
      ensures userVote == (if old(userVote) == Common.Some(voteType) then Common.None else Common.Some(voteType))
      ensures score == ScoreAfter(comment.score, old(userVote), voteType)
      ensures isCollapsed == old(isCollapsed) && showReplyBox == old(showReplyBox) &&
              replyContent == old(replyContent) && replyAttachments == old(replyAttachments) && sent == old(sent)
    {
      if userVote == Common.Some(voteType) {
        userVote := Common.None;
        score := comment.score;
      } else {
        var prevVote := userVote;
        userVote := Common.Some(voteType);
        var newScore := score;
        if prevVote == Common.Some(Up) {
          newScore := newScore - 1;
        }
        if prevVote == Common.Some(Down) {
          newScore := newScore + 1;
        }
        if voteType == Up {
          newScore := newScore + 1;
        }
        if voteType == Down {
          newScore := newScore - 1;
        }
        score := newScore;
      }
    }

    /**
     * `handleReply()`: a reply whose trimmed content is non-empty is sent
     * with this comment's id, and the box is cleared and closed; otherwise
     * nothing happens.
     */
    method HandleReply()
      modifies this
      ensures JsStrings.Trim(old(replyContent)) != "" ==>
        sent == old(sent) + [ReplyCall(comment.id, old(replyContent), old(replyAttachments))] &&
        replyContent == "" && replyAttachments == [] && !showReplyBox
      ensures JsStrings.Trim(old(replyContent)) == "" ==>
        sent == old(sent) && replyContent == old(replyContent) &&
        replyAttachments == old(replyAttachments) && showReplyBox == old(showReplyBox)
      ensures score == old(score) && userVote == old(userVote) && isCollapsed == old(isCollapsed)
    {
      if JsStrings.Trim(replyContent) != "" {
        sent := sent + [ReplyCall(comment.id, replyContent, replyAttachments)];
        replyContent := "";
        replyAttachments := [];
        showReplyBox := false;
      }
    }

    /** The collapse chevron. */
    method ToggleCollapsed()
      modifies this
      ensures isCollapsed == !old(isCollapsed)
      ensures score == old(score) && userVote == old(userVote) && showReplyBox == old(showReplyBox) &&
              replyContent == old(replyContent) && replyAttachments == old(replyAttachments) && sent == old(sent)
    {
      isCollapsed := !isCollapsed;
    }

    /** The note shown under a collapsed comment. */
    function HiddenNote(): (r: Common.Option<string>)
      reads this
      ensures r.Some? <==> isCollapsed && |comment.replies| > 0
    {
      if isCollapsed && |comment.replies| > 0 then Common.Some(CollapsedLabel(|comment.replies|)) else Common.None
    }
  }

  /** The vote a click leaves: the same vote is withdrawn, another one replaces it. */
  function VoteAfter(before: Common.Option<Vote>, click: Vote): Common.Option<Vote> {
    if before == Common.Some(click) then Common.None else Common.Some(click)
  }

  /** The displayed score after a click, as the comment's score moved by the vote it leaves. */
  function ScoreAfter(original: int, before: Common.Option<Vote>, click: Vote): int {
    original + Weight(VoteAfter(before, click))
  }

  /** The score `handleVote` computes as written. */
  function ScoreAsWritten(original: int, before: Common.Option<Vote>, click: Vote): int {
    if before == Common.Some(click) then original
    else original - Weight(before) + Weight(Common.Some(click))
  }

  /** The vote transitions of the corrected handler, starting from the comment's score. */
  lemma VoteTransitions(original: int)
    ensures ScoreAfter(original, Common.None, Up) == original + 1
    ensures ScoreAfter(original, Common.None, Down) == original - 1
    ensures ScoreAfter(original, Common.Some(Up), Up) == original
    ensures ScoreAfter(original, Common.Some(Down), Down) == original
    ensures ScoreAfter(original, Common.Some(Down), Up) == original + 1
    ensures ScoreAfter(original, Common.Some(Up), Down) == original - 1
  {
  }

  /**
   * As written, switching an up vote to down shows the original score
   * minus 2, and down to up plus 2: one more than the vote that is left,
   * so the displayed score no longer equals the comment's score moved by
   * the current vote.
   */
  lemma AsWrittenSwitchDoubleCounts(original: int)
    ensures ScoreAsWritten(original, Common.Some(Up), Down) == original - 2
    ensures ScoreAsWritten(original, Common.Some(Down), Up) == original + 2
    ensures ScoreAsWritten(original, Common.Some(Up), Down) != original + Weight(VoteAfter(Common.Some(Up), Down))
    ensures ScoreAsWritten(original, Common.Some(Down), Up) != original + Weight(VoteAfter(Common.Some(Down), Up))
  {
  }

  /** From no vote, and for a withdrawn vote, the written and corrected handlers agree. */
  lemma AsWrittenAgreesWithoutSwitch(original: int, before: Common.Option<Vote>, click: Vote)
    requires before == Common.None || before == Common.Some(click)
    ensures ScoreAsWritten(original, before, click) == ScoreAfter(original, before, click)
  {
  }

  /** Clicking the same vote twice returns to no vote and the original score. */
  lemma SameVoteTwice(original: int, before: Common.Option<Vote>, v: Vote)
    ensures VoteAfter(VoteAfter(before, v), v) == (if before == Common.Some(v) then Common.Some(v) else Common.None)
    ensures before != Common.Some(v) ==> ScoreAfter(original, VoteAfter(before, v), v) == original
  {
  }

  const MAX_INDENT_DEPTH := 8
  const INDENT_STEP := 12

  /** `Math.min(depth, 8) * 12`, in pixels. */
  function IndentLevel(depth: int): (r: int)
    ensures depth >= 0 ==> 0 <= r <= MAX_INDENT_DEPTH * INDENT_STEP
    ensures depth <= MAX_INDENT_DEPTH ==> r == depth * INDENT_STEP
    ensures depth >= MAX_INDENT_DEPTH ==> r == MAX_INDENT_DEPTH * INDENT_STEP
  {
    (if depth < MAX_INDENT_DEPTH then depth else MAX_INDENT_DEPTH) * INDENT_STEP
  }

  /** Deeper comments are never indented less. */
  lemma IndentMonotone(d1: int, d2: int)
    requires d1 <= d2
    ensures IndentLevel(d1) <= IndentLevel(d2)
  {
  }

  /** `[n reply hidden]` or `[n replies hidden]`. */
  function CollapsedLabel(n: nat): string {
    "[" + Decimal.NatToString(n) + " " + (if n == 1 then "reply" else "replies") + " hidden]"
  }

  /**
   * The label shows the count in decimal right after the bracket, so it reads
   * back as `n`, followed by the singular for exactly one hidden reply.
   */
  lemma CollapsedLabelWords(n: nat)
    ensures var r := CollapsedLabel(n);
      var d := Decimal.NatToString(n);
      |r| > |d| + 1 && r[0] == '[' && r[1..|d| + 1] == d &&
      Decimal.AllDigits(d) && Decimal.DigitsValue(d) == n &&
      r[|d| + 1..] == (if n == 1 then " reply hidden]" else " replies hidden]")
    ensures CollapsedLabel(1) == "[1 reply hidden]"
  {
    Decimal.ParsePrinted(n);
    var d := Decimal.NatToString(n);
    var r := CollapsedLabel(n);
    assert r == "[" + d + (if n == 1 then " reply hidden]" else " replies hidden]");
  }

  // ---------------------------------------------------------------------
  // The sample thread
  // ---------------------------------------------------------------------

  /** Every reply sits one level below its parent, all the way down. */
  predicate Layered(cs: seq<Comment>, depth: int)
    decreases cs
  {
    cs == [] ||
    (cs[0].depth == depth && Layered(cs[0].replies, depth + 1) && Layered(cs[1..], depth))
  }

  /** The deepest `depth` in a forest (`base` when it is empty). */
  function MaxDepth(cs: seq<Comment>, base: int): (r: int)
    ensures r >= base
    decreases cs
  {
    if cs == [] then base
    else
      var here := MaxDepth(cs[0].replies, if cs[0].depth > base then cs[0].depth else base);
      var rest := MaxDepth(cs[1..], base);
      if here > rest then here else rest
  }

  /** The written part of a sample comment: who, what, when, and what is attached. */
  datatype Text = Text(author: string, content: string, timestamp: string, attachments: Common.Option<seq<Attachment>>)

  function Node(id: string, t: Text, score: int, depth: int, replies: seq<Comment>): Comment {
    Comment(id, t.author, t.content, t.timestamp, score, replies, depth, t.attachments)
  }

  /** The texts of comments "1" to "9". */
  datatype Texts = Texts(t1: Text, t2: Text, t3: Text, t4: Text, t5: Text, t6: Text, t7: Text, t8: Text, t9: Text)

  /** The ids, scores, depths and nesting of `sampleComments`, over their texts. */
  function SampleTree(t: Texts): seq<Comment> {
    [
      Node("1", t.t1, 42, 0, [
        Node("2", t.t2, 15, 1, [
          Node("3", t.t3, 8, 2, [])]),
        Node("4", t.t4, 23, 1, [
          Node("5", t.t5, 12, 2, [
            Node("6", t.t6, 5, 3, [])])])]),
      Node("7", t.t7, 28, 0, [
        Node("8", t.t8, 11, 1, [])]),
      Node("9", t.t9, -2, 0, [])
    ]
  }

  function SampleTexts(): Texts {
    Texts(
      Text("techuser123",
        "This is a really interesting discussion. I've been thinking about this topic for a while and I think there are several important points to consider. Here's a diagram that might help explain my point:",
        "2 hours ago",
        Common.Some([
          Attachment("att1", Image, "/placeholder.svg?height=300&width=500", "architecture-diagram.png", Common.None, Common.None),
          Attachment("att2", File, "#", "technical-specs.pdf", Common.Some(245760), Common.None)])),
      Text("developer_jane",
        "I completely agree! The implementation details are crucial here. Check out this related article:",
        "1 hour ago",
        Common.Some([Attachment("att3", Link, "https://example.com/best-practices", "Best Practices for Modern Development", Common.None, Common.None)])),
      Text("codemaster", "Yes, and we should also consider the performance implications.", "45 minutes ago", Common.None),
      Text("webdev_pro",
        "Has anyone tried implementing this in production? I'm curious about real-world results.",
        "30 minutes ago", Common.None),
      Text("startup_founder",
        "We implemented something similar last month. Happy to share our experience! Here are some screenshots from our implementation:",
        "20 minutes ago",
        Common.Some([
          Attachment("att4", Image, "/placeholder.svg?height=400&width=600", "implementation-screenshot.png", Common.None, Common.None),
          Attachment("att5", Image, "/placeholder.svg?height=300&width=500", "performance-metrics.png", Common.None, Common.None)])),
      Text("curious_dev",
        "That would be amazing! Could you share some details about the challenges you faced?",
        "15 minutes ago", Common.None),
      Text("design_guru",
        "From a UX perspective, this approach makes a lot of sense. The user flow is intuitive and the interface is clean.",
        "3 hours ago", Common.None),
      Text("ux_researcher",
        "Agreed! We ran some user tests and the feedback was overwhelmingly positive. Here's our research report:",
        "2 hours ago",
        Common.Some([Attachment("att6", File, "#", "user-research-report.docx", Common.Some(1048576), Common.None)])),
      Text("skeptical_user",
        "I'm not entirely convinced this is the best approach. There might be some edge cases we haven't considered.",
        "4 hours ago", Common.None)
    )
  }

  /** `sampleComments`. */
  function SampleComments(): seq<Comment> {
    SampleTree(SampleTexts())
  }

  /** A comment with no replies adds only its own depth. */
  lemma MaxDepthLeaf(cs: seq<Comment>, base: int)
    requires |cs| == 1 && cs[0].replies == []
    ensures MaxDepth(cs, base) == if cs[0].depth > base then cs[0].depth else base
  {
    assert cs[1..] == [];
  }

  /** A comment followed by nothing: the depth reached through its replies. */
  lemma MaxDepthSingle(cs: seq<Comment>, base: int)
    requires |cs| == 1
    ensures MaxDepth(cs, base) == MaxDepth(cs[0].replies, if cs[0].depth > base then cs[0].depth else base)
  {
    assert cs[1..] == [];
  }

  /** A single comment is layered when it sits at the depth and its replies one below. */
  lemma LayeredSingle(cs: seq<Comment>, depth: int)
    requires |cs| == 1
    ensures Layered(cs, depth) <==> cs[0].depth == depth && Layered(cs[0].replies, depth + 1)
  {
    assert cs[1..] == [];
  }

  /**
   * Whatever the texts, the sample tree is layered by depth and reaches
   * depth 3, so `sampleComments` (the tree over the sample texts) is too.
   */
  lemma SampleTreeLayout(t: Texts)
    ensures Layered(SampleTree(t), 0) && MaxDepth(SampleTree(t), 0) == 3
  {
    var s := SampleTree(t);
    var r1 := s[0].replies;
    var r2, r4 := r1[0].replies, r1[1].replies;
    var r5 := r4[0].replies;
    var r7 := s[1].replies;
    LayeredSingle(r5, 3);
    LayeredSingle(r4, 2);
    LayeredSingle(r2, 2);
    LayeredSingle(r1[1..], 1);
    LayeredSingle(r7, 1);
    LayeredSingle(s[2..], 0);
    MaxDepthLeaf(r5, 2);
    MaxDepthSingle(r4, 1);
    MaxDepthLeaf(r2, 1);
    MaxDepthSingle(r1[1..], 0);
    assert Layered(r1, 1) && MaxDepth(r1, 0) == 3;
    MaxDepthLeaf(r7, 0);
    MaxDepthLeaf(s[2..], 0);
    assert Layered(s[1..], 0) && MaxDepth(s[1..], 0) == 1;
  }
}
