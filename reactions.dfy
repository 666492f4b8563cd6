/**
 * The reaction actions: a toggle over the `reactions` table keyed by
 * resource and user (the reaction kind takes no part in the lookup), and
 * the mapping of the grouped reaction rows to what the client shows.
 */
module Reactions {

  import opened Common
  import opened Schema

  datatype ReactionType = Love | Unicorn | Wow | Fire | Cry | Haha {
    function Name(): string {
      match this
      case Love => "LOVE"
      case Unicorn => "UNICORN"
      case Wow => "WOW"
      case Fire => "FIRE"
      case Cry => "CRY"
      case Haha => "HAHA"
    }
  }

  const REACTION_TYPES: seq<ReactionType> := [Love, Unicorn, Wow, Fire, Cry, Haha]

  /** `z.enum(["LOVE", "UNICORN", "WOW", "FIRE", "CRY", "HAHA"])`. */
  function ReactionTypeEnum(v: Raw): (r: Parsed<ReactionType>)
    ensures r.Ok? ==> v == Str(r.value.Name())
    ensures (exists t :: t in REACTION_TYPES && v == Str(t.Name())) ==> r.Ok?
  {
    if v == Str("LOVE") then Ok(Love)
    else if v == Str("UNICORN") then Ok(Unicorn)
    else if v == Str("WOW") then Ok(Wow)
    else if v == Str("FIRE") then Ok(Fire)
    else if v == Str("CRY") then Ok(Cry)
    else if v == Str("HAHA") then Ok(Haha)
    else Invalid
  }

  datatype ToggleInput = ToggleInput(resourceId: string, resourceType: ResourceType, reactionType: ReactionType)

  function ParseToggleInput(v: Raw): (r: Parsed<ToggleInput>)
    ensures r.Ok? <==> (v.Obj? && Field(v.fields, "resource_id").Str? &&
                        ResourceTypeEnum(Field(v.fields, "resource_type")).Ok? &&
                        ReactionTypeEnum(Field(v.fields, "reaction_type")).Ok?)
  {
    if !v.Obj? then Invalid
    else
      var id := RequiredString(Field(v.fields, "resource_id"));
      var kind := ResourceTypeEnum(Field(v.fields, "resource_type"));
      var reaction := ReactionTypeEnum(Field(v.fields, "reaction_type"));
      if id.Invalid? || kind.Invalid? || reaction.Invalid? then Invalid
      else Ok(ToggleInput(id.value, kind.value, reaction.value))
  }

  /** A row of the `reactions` table; the toggle inserts rows without a reaction kind. */
  datatype Reaction = Reaction(resourceId: string, resourceType: ResourceType, userId: UserId,
                               reactionType: Option<ReactionType>, createdAt: Time)

  /** `{ reaction_type, resource_id, reacted }`; `reactionType` is whichever string the action put there. */
  datatype ToggleResult = ToggleResult(reactionType: string, resourceId: string, reacted: bool)

  /** The where clause: resource id, resource type and user; the reaction kind is not compared. */
  predicate Matches(x: Reaction, input: ToggleInput, user: UserId) {
    x.resourceId == input.resourceId && x.resourceType == input.resourceType && x.userId == user
  }

  predicate HasReaction(rows: seq<Reaction>, input: ToggleInput, user: UserId) {
    exists k :: 0 <= k < |rows| && Matches(rows[k], input, user)
  }

  function DeleteMatching(rows: seq<Reaction>, input: ToggleInput, user: UserId): (out: seq<Reaction>)
    ensures |out| <= |rows|
    ensures forall x :: x in out ==> x in rows && !Matches(x, input, user)
  {
    if rows == [] then []
    else (if Matches(rows[0], input, user) then [] else [rows[0]]) + DeleteMatching(rows[1..], input, user)
  }

  /** The table after `toogleReaction`. */
  function Toggled(rows: seq<Reaction>, input: ToggleInput, user: UserId, now: Time): seq<Reaction> {
    if HasReaction(rows, input, user) then DeleteMatching(rows, input, user)
    else rows + [Reaction(input.resourceId, input.resourceType, user, None, now)]
  }

  /** What `toogleReaction` returns: on the delete path the `reaction_type` field carries the resource type. */
  function ToggleAnswer(rows: seq<Reaction>, input: ToggleInput, user: UserId): ToggleResult {
    if HasReaction(rows, input, user) then ToggleResult(input.resourceType.Name(), input.resourceId, false)
    else ToggleResult(input.reactionType.Name(), input.resourceId, true)
  }

  class ReactionStore {
    var rows: seq<Reaction>

    constructor(rows0: seq<Reaction>)
      ensures rows == rows0
    {
      rows := rows0;
    }

    /** `toogleReaction(input)`: `None` is the action's `undefined` (no session, or invalid input). */
    method ToogleReaction(session: Option<UserId>, raw: Raw, now: Time) returns (result: Option<ToggleResult>)
      modifies this
      ensures session.None? || ParseToggleInput(raw).Invalid? ==> result.None? && rows == old(rows)
      ensures session.Some? && ParseToggleInput(raw).Ok? ==>
        result == Some(ToggleAnswer(old(rows), ParseToggleInput(raw).value, session.value)) &&
        rows == Toggled(old(rows), ParseToggleInput(raw).value, session.value, now)
    {
      if session.None? {
        return None;
      }
      var parsed := ParseToggleInput(raw);
      if parsed.Invalid? {
        return None;
      }
      var input := parsed.value;
      if HasReaction(rows, input, session.value) {
        rows := DeleteMatching(rows, input, session.value);
        return Some(ToggleResult(input.resourceType.Name(), input.resourceId, false));
      }
      rows := rows + [Reaction(input.resourceId, input.resourceType, session.value, None, now)];
      result := Some(ToggleResult(input.reactionType.Name(), input.resourceId, true));
    }
  }

  /** One grouped row: a reaction kind, the distinct reactor count and the reactor ids. */
  datatype GroupRow = GroupRow(reactionType: Option<string>, count: nat, reactorUserIds: Option<seq<UserId>>)

  /** What the client receives per reaction kind. */
  datatype ReactionSummary = ReactionSummary(reactionType: Option<string>, count: nat, isReacted: bool)

  /** `reactor_user_ids?.includes(sessionUserId) ?? false`; no session is never among the reactors. */
  predicate Reacted(row: GroupRow, session: Option<UserId>) {
    row.reactorUserIds.Some? && session.Some? && session.value in row.reactorUserIds.value
  }

  /** The `map` over the grouped rows in `getReactions`. */
  function SummarizeReactions(rows: seq<GroupRow>, session: Option<UserId>): (r: seq<ReactionSummary>)
    ensures |r| == |rows|
  {
    if rows == [] then []
    else [ReactionSummary(rows[0].reactionType, rows[0].count, Reacted(rows[0], session))]
         + SummarizeReactions(rows[1..], session)
  }

  // ---------------------------------------------------------------------
  // Lemmas
  // ---------------------------------------------------------------------

  /**
   * Any earlier reaction of the user on the resource, whatever its kind, is
   * removed and the answer says `reacted: false` with the resource type in
   * `reaction_type`; otherwise one row without a kind is added and the answer
   * carries the requested kind.
   */
  lemma ToggleOutcome(rows: seq<Reaction>, input: ToggleInput, user: UserId, now: Time)
    ensures HasReaction(rows, input, user) ==>
      ToggleAnswer(rows, input, user) == ToggleResult(input.resourceType.Name(), input.resourceId, false) &&
      !HasReaction(Toggled(rows, input, user, now), input, user)
    ensures !HasReaction(rows, input, user) ==>
      ToggleAnswer(rows, input, user) == ToggleResult(input.reactionType.Name(), input.resourceId, true) &&
      Toggled(rows, input, user, now) == rows + [Reaction(input.resourceId, input.resourceType, user, None, now)]
  {
  }

  /** The answer's `reacted` flag is whether the user now has a reaction on the resource. */
  lemma ToggleReportsNewState(rows: seq<Reaction>, input: ToggleInput, user: UserId, now: Time)
    ensures ToggleAnswer(rows, input, user).reacted <==> HasReaction(Toggled(rows, input, user, now), input, user)
  {
    var t := Toggled(rows, input, user, now);
    if !HasReaction(rows, input, user) {
      assert Matches(t[|rows|], input, user);
    }
  }

  /** The reaction kind of the request plays no part in what the toggle does to the table. */
  lemma ToggleIgnoresReactionKind(rows: seq<Reaction>, input: ToggleInput, other: ReactionType, user: UserId, now: Time)
    ensures Toggled(rows, input.(reactionType := other), user, now) == Toggled(rows, input, user, now)
  {
    var input2 := input.(reactionType := other);
    assert forall x :: Matches(x, input2, user) <==> Matches(x, input, user);
    assert HasReaction(rows, input2, user) <==> HasReaction(rows, input, user);
    DeleteMatchingSameKey(rows, input, input2, user);
  }

  lemma {:induction false} DeleteMatchingSameKey(rows: seq<Reaction>, a: ToggleInput, b: ToggleInput, user: UserId)
    requires a.resourceId == b.resourceId && a.resourceType == b.resourceType
    ensures DeleteMatching(rows, a, user) == DeleteMatching(rows, b, user)
  {
    if rows != [] {
      DeleteMatchingSameKey(rows[1..], a, b, user);
    }
  }

  /** Other users' reactions and reactions on other resources are never touched. */
  lemma {:induction false} ToggleLeavesOthers(rows: seq<Reaction>, input: ToggleInput, user: UserId, now: Time, x: Reaction)
    requires !Matches(x, input, user)
    ensures x in Toggled(rows, input, user, now) <==> x in rows
  {
    DeleteMatchingKeeps(rows, input, user, x);
  }

  lemma {:induction false} DeleteMatchingKeeps(rows: seq<Reaction>, input: ToggleInput, user: UserId, x: Reaction)
    ensures x in DeleteMatching(rows, input, user) <==> x in rows && !Matches(x, input, user)
  {
    if rows != [] {
      DeleteMatchingKeeps(rows[1..], input, user, x);
      assert rows == [rows[0]] + rows[1..];
    }
  }

  /**
   * Each grouped row keeps its kind and count, in order, and is marked as
   * reacted exactly when the session user is among its reactors; without a
   * session nothing is marked.
   */
  lemma {:induction false} SummaryFaithful(rows: seq<GroupRow>, session: Option<UserId>)
    ensures forall k :: 0 <= k < |rows| ==>
      SummarizeReactions(rows, session)[k].reactionType == rows[k].reactionType &&
      SummarizeReactions(rows, session)[k].count == rows[k].count &&
      (SummarizeReactions(rows, session)[k].isReacted <==>
        session.Some? && rows[k].reactorUserIds.Some? && session.value in rows[k].reactorUserIds.value)
  {
    if rows != [] {
      SummaryFaithful(rows[1..], session);
      forall k | 1 <= k < |rows| ensures SummarizeReactions(rows, session)[k] == SummarizeReactions(rows[1..], session)[k - 1] {
      }
    }
  }
}
