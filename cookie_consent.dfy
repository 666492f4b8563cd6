/**
 * The cookie consent popup: a two-flag state (shown, accepted) that starts
 * unset, is restored from the browser's local storage on mount, and is
 * set and stored when the reader accepts or declines.
 */
module CookieConsent {

  const STORAGE_KEY := "cookie-consent"

  /** `CookieConsentState`. */
  datatype ConsentState = ConsentState(shown: bool, accepted: bool)

  /** The atom's initial value. */
  const INITIAL_STATE := ConsentState(false, false)

  /** The state the mount effect leaves, given what storage holds; an absent or empty value changes nothing. */
  function AfterMount(state: ConsentState, storage: map<string, string>): (r: ConsentState)
    ensures STORAGE_KEY in storage && storage[STORAGE_KEY] != "" ==>
      r == ConsentState(true, storage[STORAGE_KEY] == "true")
    ensures !(STORAGE_KEY in storage && storage[STORAGE_KEY] != "") ==> r == state
  {
    if STORAGE_KEY in storage && storage[STORAGE_KEY] != "" then
      ConsentState(true, storage[STORAGE_KEY] == "true")
    else state
  }

  /** The popup with its `localStorage`. */
  class ConsentPopup {
    var state: ConsentState
    var storage: map<string, string>

    /** A fresh page: the atom holds its initial value. */
    constructor (storage: map<string, string>)
      ensures state == INITIAL_STATE && this.storage == storage
    {
      state := INITIAL_STATE;
      this.storage := storage;
    }

    /** The mount effect: a stored, non-empty answer is shown as given. */
    method Mount()
      modifies this
      ensures state == AfterMount(old(state), storage) && storage == old(storage)
    {
      if STORAGE_KEY in storage {
        var storedConsent := storage[STORAGE_KEY];
        if storedConsent != "" {
          state := ConsentState(true, storedConsent == "true");
        }
      }
    }

    /** `handleAccept`. */
    method Accept()
      modifies this
      ensures storage == old(storage)[STORAGE_KEY := "true"] && state == ConsentState(true, true)
    {
      storage := storage[STORAGE_KEY := "true"];
      state := ConsentState(true, true);
    }

    /** `handleDecline`, which the close button also runs. */
    method Decline()
      modifies this
      ensures storage == old(storage)[STORAGE_KEY := "false"] && state == ConsentState(true, false)
    {
      storage := storage[STORAGE_KEY := "false"];
      state := ConsentState(true, false);
    }

    /** The close button. */
    method Close()
      modifies this
      ensures storage == old(storage)[STORAGE_KEY := "false"] && state == ConsentState(true, false)
    {
      Decline();
    }

    /** Whether the popup renders anything. */
    function Visible(): (r: bool)
      reads this
      ensures r <==> !state.shown
    {
      !state.shown
    }
  }

  /** The storage write of an answer. */
  function Stored(storage: map<string, string>, accepted: bool): map<string, string> {
    storage[STORAGE_KEY := if accepted then "true" else "false"]
  }

  /** After accepting or declining, a fresh page restores exactly that answer, already shown. */
  lemma ReloadRestoresAnswer(storage: map<string, string>, accepted: bool)
    ensures AfterMount(INITIAL_STATE, Stored(storage, accepted)) == ConsentState(true, accepted)
  {
  }

  /** With nothing stored the popup stays visible after mounting; any stored answer hides it. */
  lemma MountShowsOnlyWithoutAnswer(storage: map<string, string>)
    ensures AfterMount(INITIAL_STATE, storage).shown <==> STORAGE_KEY in storage && storage[STORAGE_KEY] != ""
  {
  }

  /** Any non-empty stored value other than "true", such as a tampered one, counts as declined. */
  lemma OtherValuesDecline(storage: map<string, string>, v: string)
    requires v != "" && v != "true"
    ensures AfterMount(INITIAL_STATE, storage[STORAGE_KEY := v]) == ConsentState(true, false)
  {
  }
}
