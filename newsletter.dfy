/**
 * The home page's newsletter form (index.js): the address is trimmed and
 * checked with the email rule, and an accepted address is added to the list
 * stored under `newsletterSubscribers` unless it is already there.
 */
module Newsletter {
  import opened JsText
  import Validators

  predicate NoDuplicates(list: seq<string>)
  {
    forall i, j :: 0 <= i < j < |list| ==> list[i] != list[j]
  }

  /** The list after `saveSubscriber(email)`. */
  function WithSubscriber(list: seq<string>, email: string): seq<string>
  {
    if email in list then list else list + [email]
  }

  /** Saving keeps every address, adds the new one and nothing else. */
  lemma WithSubscriberMembers(list: seq<string>, email: string)
    ensures forall x :: x in WithSubscriber(list, email) <==> x in list || x == email
  {
  }

  /** Saving never stores an address twice. */
  lemma WithSubscriberNoDuplicates(list: seq<string>, email: string)
    requires NoDuplicates(list)
    ensures NoDuplicates(WithSubscriber(list, email))
  {
    if email !in list {
      var r := list + [email];
      forall i, j | 0 <= i < j < |r| ensures r[i] != r[j] {
        if j == |list| {
          assert r[i] in list;
        }
      }
    }
  }

  /** Saving the same address again changes nothing. */
  lemma WithSubscriberIdempotent(list: seq<string>, email: string)
    ensures WithSubscriber(WithSubscriber(list, email), email) == WithSubscriber(list, email)
  {
  }

  class SubscriberList {
    /** What is stored under `newsletterSubscribers`. */
    var subscribers: seq<string>

    /** The list as read from storage; a missing key reads as empty. */
    constructor Load(stored: seq<string>)
      ensures subscribers == stored
    {
      subscribers := stored;
    }

    /** `saveSubscriber`: append the address only if it is not already in the list. */
    method SaveSubscriber(email: string)
      modifies this
      ensures subscribers == WithSubscriber(old(subscribers), email)
      ensures NoDuplicates(old(subscribers)) ==> NoDuplicates(subscribers)
    {
      if email !in subscribers {
        subscribers := subscribers + [email];
      }
      if NoDuplicates(old(subscribers)) {
        WithSubscriberNoDuplicates(old(subscribers), email);
      }
    }

    /**
     * The form's submit handler: a trimmed address that fails the email rule is
     * refused and nothing is saved; one that passes is saved.
     */
    method Submit(input: string) returns (accepted: bool)
      modifies this
      ensures accepted <==> Validators.IsValidEmail(Trim(input))
      ensures accepted ==> subscribers == WithSubscriber(old(subscribers), Trim(input))
      ensures !accepted ==> subscribers == old(subscribers)
    {
      var email := Trim(input);
      if !Validators.IsValidEmail(email) {
        return false;
      }
      SaveSubscriber(email);
      accepted := true;
    }
  }
}
