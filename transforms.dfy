/** The transforms the click handlers pass to `updateUserData`. Each one
    receives a private copy of the user's entry and returns the new entry. */
module Transforms {
  import opened Lists
  import opened Records
  import opened Text

  /** The "save" button: an event id already saved is removed (every
      occurrence, the rest keeping its order); any other id is appended. */
  function ToggleSaved(d: EventState, eventId: string): (r: EventState)
    ensures r.joined == d.joined && r.comments == d.comments
    ensures eventId in r.saved <==> eventId !in d.saved
    ensures forall x :: x != eventId ==> (x in r.saved <==> x in d.saved)
    ensures eventId !in d.saved ==> r.saved == d.saved + [eventId]
    ensures eventId in d.saved ==>
              IsSubsequence(r.saved, d.saved) && multiset(r.saved) == multiset(d.saved)[eventId := 0]
    ensures WellFormed(d) ==> WellFormed(r)
  {
    if eventId in d.saved then
      WithoutIsSubsequence(d.saved, eventId);
      WithoutMultiset(d.saved, eventId);
      WithoutNoDuplicatesIf(d.saved, eventId);
      d.(saved := Without(d.saved, eventId))
    else
      d.(saved := d.saved + [eventId])
  }

  lemma WithoutNoDuplicatesIf(s: seq<string>, e: string)
    ensures NoDuplicates(s) ==> NoDuplicates(Without(s, e))
  {
    if NoDuplicates(s) {
      WithoutNoDuplicates(s, e);
    }
  }

  /** The "join" button: the id is appended to `joined` unless already there,
      and appended to `saved` unless already there. */
  function Join(d: EventState, eventId: string): (r: EventState)
    ensures eventId in r.joined && eventId in r.saved
    ensures r.comments == d.comments
    ensures d.joined <= r.joined && d.saved <= r.saved
    ensures |r.joined| == |d.joined| + (if eventId in d.joined then 0 else 1)
    ensures |r.saved| == |d.saved| + (if eventId in d.saved then 0 else 1)
    ensures WellFormed(d) ==> WellFormed(r)
  {
    var joined := if eventId in d.joined then d.joined else d.joined + [eventId];
    var saved := if eventId in d.saved then d.saved else d.saved + [eventId];
    EventState(saved, joined, d.comments)
  }

  /** The "remove" button on the user's page: the id leaves `joined`; the
      other joined ids keep their order. */
  function Leave(d: EventState, eventId: string): (r: EventState)
    ensures eventId !in r.joined
    ensures forall x :: x != eventId ==> (x in r.joined <==> x in d.joined)
    ensures IsSubsequence(r.joined, d.joined)
    ensures multiset(r.joined) == multiset(d.joined)[eventId := 0]
    ensures r.saved == d.saved && r.comments == d.comments
    ensures WellFormed(d) ==> WellFormed(r)
  {
    WithoutIsSubsequence(d.joined, eventId);
    WithoutMultiset(d.joined, eventId);
    WithoutNoDuplicatesIf(d.joined, eventId);
    d.(joined := Without(d.joined, eventId))
  }

  /** The "comment" button: the trimmed text becomes the comment for the
      event, possibly the empty string; the lists are untouched. */
  function SetComment(d: EventState, eventId: string, text: string): (r: EventState)
    ensures eventId in r.comments && r.comments[eventId] == Trim(text)
    ensures r.saved == d.saved && r.joined == d.joined
  {
    d.(comments := d.comments[eventId := Trim(text)])
  }

  /** Commenting on one event adds at most that key and leaves every other
      event's comment as it was. */
  lemma SetCommentFrame(d: EventState, eventId: string, text: string)
    ensures SetComment(d, eventId, text).comments.Keys == d.comments.Keys + {eventId}
    ensures forall k :: k in d.comments && k != eventId ==> SetComment(d, eventId, text).comments[k] == d.comments[k]
  {
    var c := SetComment(d, eventId, text).comments;
    assert c == d.comments[eventId := Trim(text)];
  }

  /** Saving twice toggles back: the set of saved ids is what it was, and
      the other two fields never moved. */
  lemma ToggleSavedTwice(d: EventState, eventId: string)
    ensures var r := ToggleSaved(ToggleSaved(d, eventId), eventId);
            (forall x :: x in r.saved <==> x in d.saved) && r.joined == d.joined && r.comments == d.comments
  {
  }

  /** When the id was not saved, toggling twice restores the entry exactly. */
  lemma ToggleSavedTwiceUnsaved(d: EventState, eventId: string)
    requires eventId !in d.saved
    ensures ToggleSaved(ToggleSaved(d, eventId), eventId) == d
  {
    WithoutAppend(d.saved, [eventId], eventId);
    assert Without([eventId], eventId) == [];
  }

  /** Joining a second time changes nothing. */
  lemma JoinIdempotent(d: EventState, eventId: string)
    ensures Join(Join(d, eventId), eventId) == Join(d, eventId)
  {
  }

  /** Removing a joined event keeps it saved; if it was not joined before
      the join, the joined list is back to what it was. */
  lemma JoinThenLeave(d: EventState, eventId: string)
    ensures eventId in Leave(Join(d, eventId), eventId).saved
    ensures eventId !in d.joined ==> Leave(Join(d, eventId), eventId).joined == d.joined
  {
    if eventId !in d.joined {
      WithoutAppend(d.joined, [eventId], eventId);
      assert Without([eventId], eventId) == [];
    }
  }

  /** "Joined implies saved" is not kept by the handlers: un-saving a joined
      event leaves it joined. */
  lemma UnsaveAfterJoin(d: EventState, eventId: string)
    ensures var r := ToggleSaved(Join(d, eventId), eventId);
            eventId in r.joined && eventId !in r.saved
  {
  }

  /** A user with no entry yet joins an event and then removes it: the
      event stays saved, and the comment typed with surrounding spaces is
      stored trimmed. */
  lemma {:induction false} JoinLeaveCommentFromEmpty(eventId: string, pad: string, text: string)
    requires AllWhitespace(pad) && text != [] && !IsWhitespace(text[0]) && !IsWhitespace(text[|text| - 1])
    ensures Join(Empty, eventId).joined == [eventId] && Join(Empty, eventId).saved == [eventId]
    ensures Leave(Join(Empty, eventId), eventId).joined == []
    ensures Leave(Join(Empty, eventId), eventId).saved == [eventId]
    ensures SetComment(Empty, eventId, pad + text + pad).comments[eventId] == text
  {
    JoinThenLeave(Empty, eventId);
    TrimSurrounded(pad, text, pad);
  }
}
