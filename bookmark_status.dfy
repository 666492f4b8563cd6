/**
 * The bookmark button's local flag: it starts unset, flips at once when
 * the reader toggles, and is then overwritten by whatever the server
 * reports, either after the toggle or when the status query arrives.
 */
module BookmarkStatus {

  import opened Common

  /**
   * What can happen to the flag: the reader toggles; the toggle mutation
   * succeeds with `data?.bookmarked`; the status query delivers `data`
   * (`None` while there is none, then `Some(data.bookmarked)`).
   */
  datatype Event =
    | Toggle
    | MutationSuccess(bookmarked: Option<bool>)
    | StatusArrived(data: Option<Option<bool>>)

  /** The flag after one event. */
  function Step(flag: bool, e: Event): bool {
    match e
    case Toggle => !flag
    case MutationSuccess(b) => b.GetOr(false)
    case StatusArrived(data) => if data.Some? then data.value.GetOr(false) else flag
  }

  /** The flag after a run of events, from `useState(false)`. */
  function FlagAfter(events: seq<Event>): bool
    decreases |events|
  {
    if events == [] then false else Step(FlagAfter(events[..|events| - 1]), events[|events| - 1])
  }

  /** `enabled: Boolean(resource_id) && Boolean(resource_type)`. */
  predicate StatusQueryEnabled(resourceId: string, resourceType: string) {
    resourceId != "" && resourceType != ""
  }

  /** The state of one mounted `BookmarkStatus`. */
  class BookmarkWidget {
    const resourceId: string
    const resourceType: string
    var bookmarked: bool
    /** How many toggle requests have been sent to the server. */
    var requests: nat

    constructor (resourceId: string, resourceType: string)
      ensures this.resourceId == resourceId && this.resourceType == resourceType
      ensures !bookmarked && requests == 0
    {
      this.resourceId, this.resourceType := resourceId, resourceType;
      bookmarked := false;
      requests := 0;
    }

    /** `toggle()`: flip the flag before the server answers, then send the toggle. */
    method ToggleClicked()
      modifies this
      ensures bookmarked == Step(old(bookmarked), Toggle) && bookmarked == !old(bookmarked)
      ensures requests == old(requests) + 1
    {
      bookmarked := !bookmarked;
      requests := requests + 1;
    }

    /** `onSuccess(data)`: the server's answer replaces the flag; a missing answer reads as false. */
    method OnSuccess(answer: Option<bool>)
      modifies this
      ensures bookmarked == Step(old(bookmarked), MutationSuccess(answer))
      ensures answer.Some? ==> bookmarked == answer.value
      ensures answer.None? ==> !bookmarked
      ensures requests == old(requests)
    {
      bookmarked := answer.GetOr(false);
    }

    /** The effect on `status.data`: arriving data replaces the flag, no data leaves it. */
    method OnStatusData(data: Option<Option<bool>>)
      modifies this
      ensures bookmarked == Step(old(bookmarked), StatusArrived(data))
      ensures data.None? ==> bookmarked == old(bookmarked)
      ensures requests == old(requests)
    {
      if data.Some? {
        bookmarked := data.value.GetOr(false);
      }
    }
  }

  /** Before anything happens the flag is false. */
  lemma StartsUnset()
    ensures !FlagAfter([])
  {
  }

  /** Whatever came before, a successful toggle leaves exactly the server's answer. */
  lemma ServerAnswerWins(events: seq<Event>, answer: Option<bool>)
    ensures FlagAfter(events + [MutationSuccess(answer)]) == answer.GetOr(false)
  {
    assert (events + [MutationSuccess(answer)])[..|events|] == events;
  }

  /** Two toggles without an answer in between cancel out. */
  lemma ToggleTwiceCancels(events: seq<Event>)
    ensures FlagAfter(events + [Toggle, Toggle]) == FlagAfter(events)
  {
    var e2 := events + [Toggle, Toggle];
    assert e2[..|e2| - 1] == events + [Toggle];
    assert (events + [Toggle])[..|events|] == events;
  }

  /** A run without status data or server answers is decided by the parity of the toggles. */
  lemma {:induction false} TogglesOnly(n: nat)
    ensures FlagAfter(seq(n, _ => Toggle)) == (n % 2 == 1)
  {
    if n > 0 {
      var s := seq(n, _ => Toggle);
      assert s[..n - 1] == seq(n - 1, _ => Toggle);
      TogglesOnly(n - 1);
    }
  }

  /** The status query runs only when both the resource id and its type are non-empty. */
  lemma QueryNeedsBoth(resourceId: string, resourceType: string)
    ensures StatusQueryEnabled(resourceId, resourceType) <==> resourceId != [] && resourceType != []
    ensures !StatusQueryEnabled("", resourceType) && !StatusQueryEnabled(resourceId, "")
  {
  }
}
