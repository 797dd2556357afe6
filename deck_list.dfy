/**
 * The All Decks screen: an ordered list of decks and the id of the deck
 * whose removal is staged. Confirming a deletion marks the id at once; a
 * timer started then removes every deck with that id and clears the mark.
 * All timers have the same delay, so they fire in the order they were
 * started: the model keeps the started-but-not-fired removals as a queue
 * and fires them one step at a time.
 */
module DeckList {
  import opened Wrappers
  import opened DeckCard
  import Icons

  const INITIAL_DECKS: seq<Deck> := [
    Deck("1", "Azorius Control", "Dummy Commander 1", "Commander", "White, Blue"),
    Deck("2", "Golgari Graveyard", "Dummy Commander 2", "Commander", "Black, Green"),
    Deck("3", "Mono-Red Aggro", "Dummy Commander 3", "Commander", "Red")
  ]

  function Ids(decks: seq<Deck>): (r: seq<string>)
    ensures |r| == |decks| && forall i :: 0 <= i < |r| ==> r[i] == decks[i].id
  {
    if decks == [] then [] else [decks[0].id] + Ids(decks[1..])
  }

  /** The starter list holds decks "1", "2" and "3", in that order. */
  lemma InitialIds()
    ensures Ids(INITIAL_DECKS) == ["1", "2", "3"]
  {
  }

  /** The mono-red starter deck's border is red twice. */
  lemma MonoRedGradient()
    ensures GradientColors(INITIAL_DECKS[2]) == ["#D64541", "#D64541"]
  {
    var colors := INITIAL_DECKS[2].colors;
    assert colors == "Red";
    SingleColorGradient(MANA_COLORS, colors);
    assert BorderColor(MANA_COLORS, colors) == "#D64541";
  }

  // ---------------------------------------------------------------------
  // `decks.filter(d => d.id !== id)`

  function RemoveId(decks: seq<Deck>, id: string): (r: seq<Deck>)
    ensures |r| <= |decks|
    ensures forall d :: d in r <==> d in decks && d.id != id
  {
    if decks == [] then []
    else (if decks[0].id != id then [decks[0]] else []) + RemoveId(decks[1..], id)
  }

  /** Removal works piecewise: the survivors of a list are the survivors of
      its front followed by the survivors of its back, so they keep their
      relative order. */
  lemma {:induction false} RemoveIdAppend(front: seq<Deck>, back: seq<Deck>, id: string)
    ensures RemoveId(front + back, id) == RemoveId(front, id) + RemoveId(back, id)
  {
    if front != [] {
      assert (front + back)[0] == front[0];
      assert (front + back)[1..] == front[1..] + back;
      RemoveIdAppend(front[1..], back, id);
    } else {
      assert front + back == back;
    }
  }

  /** Every deck with the id is removed and every other deck is kept as
      many times as it occurred. */
  lemma {:induction false} RemoveIdCounts(decks: seq<Deck>, id: string, d: Deck)
    ensures multiset(RemoveId(decks, id))[d] == if d.id == id then 0 else multiset(decks)[d]
  {
    if decks != [] {
      var head := if decks[0].id != id then [decks[0]] else [];
      var rest := RemoveId(decks[1..], id);
      RemoveIdCounts(decks[1..], id, d);
      assert RemoveId(decks, id) == head + rest;
      assert multiset(head + rest) == multiset(head) + multiset(rest);
      assert decks == [decks[0]] + decks[1..];
      assert multiset(decks) == multiset{decks[0]} + multiset(decks[1..]);
    }
  }

  /** Removing an id that no deck has changes nothing. */
  lemma {:induction false} RemoveAbsentId(decks: seq<Deck>, id: string)
    requires forall i :: 0 <= i < |decks| ==> decks[i].id != id
    ensures RemoveId(decks, id) == decks
  {
    if decks != [] {
      RemoveAbsentId(decks[1..], id);
    }
  }

  /** Removing an id twice is removing it once. */
  lemma RemoveIdIdempotent(decks: seq<Deck>, id: string)
    ensures RemoveId(RemoveId(decks, id), id) == RemoveId(decks, id)
  {
    var r := RemoveId(decks, id);
    forall i | 0 <= i < |r| ensures r[i].id != id {
      assert r[i] in r;
    }
    RemoveAbsentId(r, id);
  }

  /** Two staged removals give the same list whichever timer fires first. */
  lemma {:induction false} RemoveIdCommutes(decks: seq<Deck>, a: string, b: string)
    ensures RemoveId(RemoveId(decks, a), b) == RemoveId(RemoveId(decks, b), a)
  {
    if decks != [] {
      RemoveIdCommutes(decks[1..], a, b);
      var d := decks[0];
      RemoveIdAppend(if d.id != a then [d] else [], RemoveId(decks[1..], a), b);
      RemoveIdAppend(if d.id != b then [d] else [], RemoveId(decks[1..], b), a);
    }
  }

  predicate UniqueIds(decks: seq<Deck>) {
    forall i, j :: 0 <= i < j < |decks| ==> decks[i].id != decks[j].id
  }

  /** When ids are unique, removing a present id drops exactly one deck. */
  lemma {:induction false} RemoveUniqueId(decks: seq<Deck>, id: string)
    requires UniqueIds(decks)
    requires exists i :: 0 <= i < |decks| && decks[i].id == id
    ensures |RemoveId(decks, id)| == |decks| - 1
    ensures UniqueIds(RemoveId(decks, id))
  {
    var k :| 0 <= k < |decks| && decks[k].id == id;
    if k == 0 {
      RemoveAbsentId(decks[1..], id);
    } else {
      assert decks[1..][k - 1].id == id;
      RemoveUniqueId(decks[1..], id);
    }
    UniqueAfterRemove(decks, id);
  }

  /** Removal keeps ids unique. */
  lemma {:induction false} UniqueAfterRemove(decks: seq<Deck>, id: string)
    requires UniqueIds(decks)
    ensures UniqueIds(RemoveId(decks, id))
  {
    if decks != [] {
      var rest := decks[1..];
      var kept := RemoveId(rest, id);
      assert UniqueIds(rest) by {
        forall i, j | 0 <= i < j < |rest| ensures rest[i].id != rest[j].id {
          assert rest[i] == decks[i + 1] && rest[j] == decks[j + 1];
        }
      }
      UniqueAfterRemove(rest, id);
      if decks[0].id != id {
        forall k | 0 <= k < |kept| ensures kept[k].id != decks[0].id {
          HeadIdNotInRest(decks, kept[k]);
        }
        PrependUnique(decks[0], kept);
      }
    }
  }

  lemma HeadIdNotInRest(decks: seq<Deck>, d: Deck)
    requires UniqueIds(decks) && decks != [] && d in decks[1..]
    ensures d.id != decks[0].id
  {
    var m :| 0 <= m < |decks[1..]| && decks[1..][m] == d;
    assert decks[m + 1] == d;
  }

  lemma PrependUnique(d: Deck, kept: seq<Deck>)
    requires UniqueIds(kept)
    requires forall k :: 0 <= k < |kept| ==> kept[k].id != d.id
    ensures UniqueIds([d] + kept)
  {
    var r := [d] + kept;
    forall i, j | 0 <= i < j < |r| ensures r[i].id != r[j].id {
      assert r[j] == kept[j - 1];
      if i > 0 {
        assert r[i] == kept[i - 1];
      }
    }
  }

  // ---------------------------------------------------------------------
  // The screen.

  /** The two buttons of the confirmation alert. */
  datatype AlertChoice = Cancel | Delete

  /** `isDeleting` of the card for `item`. */
  predicate MarkedDeleting(item: Deck, deletingId: Option<string>)
    ensures deletingId.None? ==> !MarkedDeleting(item, deletingId)
    ensures MarkedDeleting(item, deletingId) ==> deletingId == Some(item.id)
  {
    deletingId == Some(item.id)
  }

  /** The mark singles out one id: any two marked cards share it. */
  lemma MarkedShareId(a: Deck, b: Deck, deletingId: Option<string>)
    requires MarkedDeleting(a, deletingId) && MarkedDeleting(b, deletingId)
    ensures a.id == b.id && deletingId.Some?
  {
  }

  class DeckListScreen {
    var decks: seq<Deck>
    var deletingId: Option<string>
    /** The ids of the removal timers started and not yet fired, oldest first. */
    var pendingRemovals: seq<string>

    /** A marked id is always the id of the latest removal still pending. */
    ghost predicate Valid()
      reads this
    {
      deletingId.Some? ==> pendingRemovals != [] && deletingId.value == pendingRemovals[|pendingRemovals| - 1]
    }

    constructor ()
      ensures Valid()
      ensures decks == INITIAL_DECKS && deletingId == None && pendingRemovals == []
    {
      decks := INITIAL_DECKS;
      deletingId := None;
      pendingRemovals := [];
    }

    /** `isDeleting` of the card for `item`: a marked card's removal is
        pending, and it is the latest one started. */
    predicate IsDeleting(item: Deck)
      reads this
      ensures Valid() && IsDeleting(item) ==>
        item.id in pendingRemovals && item.id == pendingRemovals[|pendingRemovals| - 1]
    {
      MarkedDeleting(item, deletingId)
    }

    /** `deleteDeck` followed by the user's answer to the alert. Cancel
        changes nothing; Delete marks the deck's id and starts its timer,
        leaving the list as it is. */
    method DeleteDeck(deckToDelete: Deck, choice: AlertChoice)
      requires Valid()
      modifies this
      ensures Valid()
      ensures decks == old(decks)
      ensures choice == Cancel ==> deletingId == old(deletingId) && pendingRemovals == old(pendingRemovals)
      ensures choice == Delete ==>
        deletingId == Some(deckToDelete.id) && pendingRemovals == old(pendingRemovals) + [deckToDelete.id]
    {
      if choice == Delete {
        deletingId := Some(deckToDelete.id);
        pendingRemovals := pendingRemovals + [deckToDelete.id];
      }
    }

    /** The oldest pending timer fires: every deck with its id leaves the
        list and the mark is cleared, whichever id it held. With no timer
        pending nothing happens. */
    method FireTimer() returns (fired: bool)
      requires Valid()
      modifies this
      ensures Valid()
      ensures fired <==> old(pendingRemovals) != []
      ensures !fired ==> decks == old(decks) && deletingId == old(deletingId) && pendingRemovals == []
      ensures fired ==>
        decks == RemoveId(old(decks), old(pendingRemovals)[0]) && deletingId == None
        && pendingRemovals == old(pendingRemovals)[1..]
    {
      if pendingRemovals == [] {
        return false;
      }
      var id := pendingRemovals[0];
      decks := RemoveId(decks, id);
      deletingId := None;
      pendingRemovals := pendingRemovals[1..];
      fired := true;
    }
  }

  /** Confirming two deletions before the first timer fires: the first
      timer removes deck "1" and clears the mark, although deck "2" is still
      waiting for its own timer. */
  method OverlappingDeletions() returns (ids: seq<string>, marked: Option<string>, pending: seq<string>)
    ensures ids == ["2", "3"] && marked == None && pending == ["2"]
  {
    var screen := new DeckListScreen();
    screen.DeleteDeck(INITIAL_DECKS[0], Delete);
    screen.DeleteDeck(INITIAL_DECKS[1], Delete);
    assert screen.IsDeleting(INITIAL_DECKS[1]) && !screen.IsDeleting(INITIAL_DECKS[0]);
    var fired := screen.FireTimer();
    RemoveFirstStarter();
    ids, marked, pending := Ids(screen.decks), screen.deletingId, screen.pendingRemovals;
  }

  lemma RemoveFirstStarter()
    ensures RemoveId(INITIAL_DECKS, "1") == INITIAL_DECKS[1..]
    ensures Ids(INITIAL_DECKS[1..]) == ["2", "3"]
  {
    var decks := INITIAL_DECKS;
    assert |decks| == 3 && decks[0].id == "1" && decks[1].id == "2" && decks[2].id == "3";
    RemoveHeadOnly(decks, "1");
    var ids := Ids(decks[1..]);
    assert |ids| == 2 && ids[0] == "2" && ids[1] == "3";
  }

  lemma RemoveHeadOnly(decks: seq<Deck>, id: string)
    requires decks != [] && decks[0].id == id
    requires forall i :: 1 <= i < |decks| ==> decks[i].id != id
    ensures RemoveId(decks, id) == decks[1..]
  {
    RemoveAbsentId(decks[1..], id);
  }

  /** The header's back button asks for "chevron.left", which the icon
      table does not map, so it draws nothing. */
  lemma BackChevronDrawsNothing()
    ensures Icons.IconSymbol("chevron.left", Some(20.0), "#F5A623") == None
  {
  }
}
