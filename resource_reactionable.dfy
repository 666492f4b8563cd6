/**
 * The reaction buttons' optimistic update: toggling a reaction patches the
 * cached list of reaction counts before the server answers, and a failed
 * toggle rolls the cache back to the snapshot taken before the patch.
 */
module ResourceReactionable {

  import opened Common

  /** One entry of the cached reaction list. */
  datatype ReactionStatus = ReactionStatus(
    count: int,
    isReacted: bool,
    reactionType: Option<string>,
    reactorUserIds: Option<seq<UserId>>)

  /** `findIndex((r) => r.reaction_type == t)`: the first entry of the type, or -1. */
  function FindIndex(s: seq<ReactionStatus>, t: string): (r: int)
    ensures -1 <= r < |s|
    ensures r >= 0 ==> s[r].reactionType == Some(t)
    ensures forall j :: 0 <= j < |s| && (r == -1 || j < r) ==> s[j].reactionType != Some(t)
  {
    if s == [] then -1
    else if s[0].reactionType == Some(t) then 0
    else
      var k := FindIndex(s[1..], t);
      if k == -1 then -1 else k + 1
  }

  /** Some entry of the list has the type. */
  predicate HasEntry(s: seq<ReactionStatus>, t: string) {
    exists j :: 0 <= j < |s| && s[j].reactionType == Some(t)
  }

  lemma FoundIffEntry(s: seq<ReactionStatus>, t: string)
    ensures FindIndex(s, t) >= 0 <==> HasEntry(s, t)
  {
  }

  /** A reacted entry loses the reader's reaction, an unreacted one gains it. */
  function Flipped(e: ReactionStatus): ReactionStatus {
    if e.isReacted then e.(isReacted := false, count := e.count - 1)
    else e.(isReacted := true, count := e.count + 1)
  }

  /** The list after the optimistic patch for type `t`. */
  function Toggled(s: seq<ReactionStatus>, t: string): seq<ReactionStatus>
    requires HasEntry(s, t)
  {
    FoundIffEntry(s, t);
    var i := FindIndex(s, t);
    s[i := Flipped(s[i])]
  }

  /**
   * The `setQueryData` updater: it flips the first entry of the type in
   * place, in the array the cache holds.
   */
  method PatchInPlace(a: array<ReactionStatus>, t: string)
    requires HasEntry(a[..], t)
    modifies a
    ensures a[..] == Toggled(old(a[..]), t)
  {
    FoundIffEntry(a[..], t);
    var index := FindIndex(a[..], t);
    if a[index].isReacted {
      a[index] := a[index].(isReacted := false);
      a[index] := a[index].(count := a[index].count - 1);
    } else {
      a[index] := a[index].(isReacted := true);
      a[index] := a[index].(count := a[index].count + 1);
    }
  }

  /**
   * The patch touches only the first entry of the type: its flag flips and
   * its count moves by one in the flag's new direction; the length and
   * every other entry stay.
   */
  lemma ToggledEntry(s: seq<ReactionStatus>, t: string)
    requires HasEntry(s, t)
    ensures var i := FindIndex(s, t);
      var r := Toggled(s, t);
      0 <= i && |r| == |s| &&
      r[i].isReacted == !s[i].isReacted &&
      r[i].count == (if s[i].isReacted then s[i].count - 1 else s[i].count + 1) &&
      r[i].reactionType == s[i].reactionType && r[i].reactorUserIds == s[i].reactorUserIds &&
      (forall j :: 0 <= j < |s| && j != i ==> r[j] == s[j])
  {
    FoundIffEntry(s, t);
  }

  /** Toggling the same type twice restores the list. */
  lemma ToggleTwice(s: seq<ReactionStatus>, t: string)
    requires HasEntry(s, t)
    ensures HasEntry(Toggled(s, t), t)
    ensures Toggled(Toggled(s, t), t) == s
  {
    FoundIffEntry(s, t);
    var i := FindIndex(s, t);
    var r := Toggled(s, t);
    assert r[i].reactionType == Some(t);
    FindIndexSameTypes(s, r, t);
    assert FindIndex(r, t) == i;
  }

  /** The index search sees only the types, so a patched list is searched alike. */
  lemma {:induction false} FindIndexSameTypes(s: seq<ReactionStatus>, r: seq<ReactionStatus>, t: string)
    requires |s| == |r|
    requires forall j :: 0 <= j < |s| ==> s[j].reactionType == r[j].reactionType
    ensures FindIndex(s, t) == FindIndex(r, t)
  {
    if s != [] {
      FindIndexSameTypes(s[1..], r[1..], t);
    }
  }

  /** A patch always changes the list: its flag flips. */
  lemma ToggledDiffers(s: seq<ReactionStatus>, t: string)
    requires HasEntry(s, t)
    ensures Toggled(s, t) != s
  {
    ToggledEntry(s, t);
  }

  /** `getReaction(t)`: the first cached entry whose type is `t`, if any. */
  function GetReaction(data: Option<seq<ReactionStatus>>, t: string): (r: Option<ReactionStatus>)
    ensures r.Some? <==> data.Some? && HasEntry(data.value, t)
    ensures r.Some? ==> r == Some(data.value[FindIndex(data.value, t)])
  {
    FoundIffEntry(if data.Some? then data.value else [], t);
    if data.None? then None
    else
      var i := FindIndex(data.value, t);
      if i == -1 then None else Some(data.value[i])
  }

  /** The list handed to `render`: the cached one, or `[]` while there is none. */
  function Rendered(data: Option<seq<ReactionStatus>>): (r: seq<ReactionStatus>)
    ensures data.None? ==> r == []
    ensures data.Some? ==> r == data.value
  {
    if data.Some? then data.value else []
  }

  /** What `onMutate` returns when it passes the session check: the cache as it was read. */
  datatype AliasedContext = AliasedContext(oldReactions: Option<array<ReactionStatus>>)

  /** The same with the list copied before the patch. */
  datatype Context = Context(oldReactions: Option<seq<ReactionStatus>>)

  /** The query cache entry `["reaction", resource_id, resource_type]`. */
  class ReactionCache {
    var data: Option<array<ReactionStatus>>
    /** The login popup was opened. */
    var loginShown: bool

    constructor (data: Option<array<ReactionStatus>>)
      ensures this.data == data && !loginShown
    {
      this.data := data;
      loginShown := false;
    }

    /**
     * `onMutate(t)` as written: without a signed-in user it only opens the
     * login popup; otherwise it keeps a reference to the cached array (no
     * copy) and patches that same array in place.
     */
    method OnMutateAsWritten(t: string, signedIn: bool) returns (context: Option<AliasedContext>)
      requires signedIn ==> data.Some? && HasEntry(data.value[..], t)
      modifies this, if data.Some? then {data.value} else {}
      ensures data == old(data)
      ensures !signedIn ==> context.None? && loginShown && (data.Some? ==> data.value[..] == old(data.value[..]))
      ensures signedIn ==>
        context == Some(AliasedContext(data)) && loginShown == old(loginShown) &&
        data.value[..] == Toggled(old(data.value[..]), t)
    {
      if !signedIn {
        loginShown := true;
        return None;
      }
      var oldReactions := data;
      PatchInPlace(data.value, t);
      return Some(AliasedContext(oldReactions));
    }

    /** `onError`: the cache is set to `context?.oldReactions`; `undefined` leaves it as it is. */
    method OnErrorAsWritten(context: Option<AliasedContext>)
      modifies this
      ensures data == (if context.Some? && context.value.oldReactions.Some? then context.value.oldReactions else old(data))
      ensures loginShown == old(loginShown)
    {
      if context.Some? && context.value.oldReactions.Some? {
        data := context.value.oldReactions;
      }
    }

    /**
     * A toggle whose server call fails, as written: the rollback puts back
     * the very array that was patched, so the patch stays.
     */
    method FailedToggleAsWritten(t: string)
      requires data.Some? && HasEntry(data.value[..], t)
      modifies this, data.value
      ensures data == old(data)
      ensures data.value[..] == Toggled(old(data.value[..]), t)
      ensures data.value[..] != old(data.value[..])
    {
      var context := OnMutateAsWritten(t, true);
      OnErrorAsWritten(context);
      ToggledDiffers(old(data.value[..]), t);
    }

    /** `onMutate(t)` with the list copied before it is patched. */
    method OnMutate(t: string, signedIn: bool) returns (context: Option<Context>)
      requires signedIn ==> data.Some? && HasEntry(data.value[..], t)
      modifies this, if data.Some? then {data.value} else {}
      ensures data == old(data)
      ensures !signedIn ==> context.None? && loginShown && (data.Some? ==> data.value[..] == old(data.value[..]))
      ensures signedIn ==>
        context == Some(Context(Some(old(data.value[..])))) && loginShown == old(loginShown) &&
        data.value[..] == Toggled(old(data.value[..]), t)
    {
      if !signedIn {
        loginShown := true;
        return None;
      }
      var oldReactions := data.value[..];
      PatchInPlace(data.value, t);
      return Some(Context(Some(oldReactions)));
    }

    /** `onError` with a copied snapshot: the cache gets a list holding the snapshot. */
    method OnError(context: Option<Context>)
      modifies this
      ensures context.Some? && context.value.oldReactions.Some? ==>
        data.Some? && fresh(data.value) && data.value[..] == context.value.oldReactions.value
      ensures !(context.Some? && context.value.oldReactions.Some?) ==> data == old(data)
      ensures loginShown == old(loginShown)
    {
      if context.Some? && context.value.oldReactions.Some? {
        var snapshot := context.value.oldReactions.value;
        var restored := new ReactionStatus[|snapshot|](i requires 0 <= i < |snapshot| => snapshot[i]);
        data := Some(restored);
      }
    }

    /** A toggle whose server call fails, with the copied snapshot: the cache reads as before. */
    method FailedToggle(t: string)
      requires data.Some? && HasEntry(data.value[..], t)
      modifies this, data.value
      ensures data.Some? && data.value[..] == old(data.value[..])
    {
      var context := OnMutate(t, true);
      OnError(context);
    }
  }
}
