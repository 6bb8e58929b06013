/** What the vote-counting queries of the poll store promise: who is vetoed, who leads,
    who wins, and what a secondary poll can be seeded with. */
module Tally {
  import opened Outcomes
  import opened Models
  import opened Crud

  /** Vetoing sets `veto` on exactly the given books and changes nothing else. */
  lemma ApplyVetoMarks(books: Books, ids: set<nat>)
    ensures ApplyVeto(books, ids).Keys == books.Keys
    ensures forall id :: id in books ==>
      && ApplyVeto(books, ids)[id].veto == (books[id].veto || id in ids)
      && ApplyVeto(books, ids)[id].(veto := books[id].veto) == books[id]
    ensures VetoesKept(books, ApplyVeto(books, ids))
  {
  }

  /** Every book with a choice of at most one vote in poll `p` ends up vetoed. */
  lemma LowScorersVetoed(books: Books, choices: Choices, p: nat, c: nat)
    requires c in choices && choices[c].pollId == p && choices[c].votes <= 1 && choices[c].bookId in books
    ensures ApplyVeto(books, VetoSet(choices, p))[choices[c].bookId].veto
  {
    assert choices[c].bookId in VetoSet(choices, p);
  }

  /** When no choice of the primary poll got more than one vote, every leader is vetoed
      before seeding, so the secondary poll is empty. */
  lemma {:induction false} LowMaximumEmptiesSecondary(books: Books, choices: Choices, p: nat)
    requires MaxVotes(choices, p).Some? && MaxVotes(choices, p).value <= 1
    ensures Leaders(choices, p) <= VetoSet(choices, p)
    ensures EligibleAmong(ApplyVeto(books, VetoSet(choices, p)), Leaders(choices, p)) == {}
  {
    var m := MaxVotes(choices, p).value;
    forall b | b in Leaders(choices, p) ensures b in VetoSet(choices, p) {
      var c :| c in choices && choices[c].pollId == p && choices[c].votes == m && choices[c].bookId == b;
      assert choices[c].votes <= 1;
    }
    var after := ApplyVeto(books, VetoSet(choices, p));
    forall b | b in Leaders(choices, p) && b in after ensures !Eligible(after[b]) {
      assert after[b].veto;
    }
  }

  /** When the maximum is at least two and no book has two choices in the poll, the veto step
      spares every leader: the secondary poll gets the leaders that were eligible before. */
  lemma {:induction false} HighMaximumSparesLeaders(books: Books, choices: Choices, p: nat)
    requires MaxVotes(choices, p).Some? && MaxVotes(choices, p).value >= 2
    requires OneChoicePerBook(choices, p)
    ensures Leaders(choices, p) !! VetoSet(choices, p)
    ensures EligibleAmong(ApplyVeto(books, VetoSet(choices, p)), Leaders(choices, p)) == EligibleAmong(books, Leaders(choices, p))
  {
    var m := MaxVotes(choices, p).value;
    forall b | b in Leaders(choices, p) ensures b !in VetoSet(choices, p) {
      var c :| c in choices && choices[c].pollId == p && choices[c].votes == m && choices[c].bookId == b;
      forall d | d in choices && choices[d].pollId == p && choices[d].bookId == b ensures choices[d].votes > 1 {
        assert d == c;
      }
    }
    var after := ApplyVeto(books, VetoSet(choices, p));
    forall b | b in Leaders(choices, p) && b in books ensures after[b] == books[b] {
    }
  }

  /** The secondary poll's books come from the primary poll's leaders. */
  lemma SecondaryWithinLeaders(choices: Choices, s: nat, books: Books, leaders: set<nat>)
    requires SeededWith(choices, s, EligibleAmong(books, leaders))
    ensures forall c :: c in choices && choices[c].pollId == s ==>
      choices[c].bookId in leaders && choices[c].bookId in books && Eligible(books[choices[c].bookId])
  {
  }

  /** A winner got the most votes, and every other book of the poll got fewer. */
  lemma {:induction false} WinnerHasMostVotes(choices: Choices, p: nat)
    requires Winner(choices, p).Ok?
    ensures exists c :: (c in choices && choices[c].pollId == p && choices[c].bookId == Winner(choices, p).value
                         && choices[c].votes == MaxVotes(choices, p).value)
    ensures forall c, d ::
      (c in choices && d in choices && choices[c].pollId == p && choices[d].pollId == p
       && choices[c].bookId == Winner(choices, p).value && choices[d].bookId != Winner(choices, p).value
       && choices[c].votes == MaxVotes(choices, p).value) ==> choices[d].votes < choices[c].votes
  {
    var w := Winner(choices, p).value;
    assert w in Leaders(choices, p);
    var m := MaxVotes(choices, p).value;
    forall c, d | c in choices && d in choices && choices[c].pollId == p && choices[d].pollId == p
      && choices[c].bookId == w && choices[d].bookId != w && choices[c].votes == m
      ensures choices[d].votes < choices[c].votes
    {
      assert choices[d].bookId !in Leaders(choices, p);
    }
  }

  /** Two books tied at the maximum make `.one()` raise. */
  lemma {:induction false} TieHasNoWinner(choices: Choices, p: nat, c: nat, d: nat)
    requires c in choices && d in choices && choices[c].pollId == p && choices[d].pollId == p
    requires choices[c].bookId != choices[d].bookId
    requires choices[c].votes == choices[d].votes
    requires forall e :: e in choices && choices[e].pollId == p ==> choices[e].votes <= choices[c].votes
    ensures Winner(choices, p) == Err(MultipleResultsFound)
  {
    assert c in ChoicesOf(choices, p);
    assert MaxVotes(choices, p) == Some(choices[c].votes);
    assert choices[c].bookId in Leaders(choices, p) && choices[d].bookId in Leaders(choices, p);
  }

  /** A poll without choices has no winner. */
  lemma {:induction false} EmptyPollHasNoWinner(choices: Choices, p: nat)
    requires forall c :: c in choices ==> choices[c].pollId != p
    ensures Winner(choices, p) == Err(NoResultFound)
  {
    assert ChoicesOf(choices, p) == {};
  }

  /** Retiring the current book and crowning a winner leaves exactly the winner current. */
  lemma {:induction false} CrowningLeavesOneCurrent(books: Books, w: nat)
    requires w in books
    ensures CurrentIds(RetireCurrent(books)[w := RetireCurrent(books)[w].(current := true)]) == {w}
  {
    RetiredHasNoCurrent(books);
    Crown(RetireCurrent(books), w);
  }

  /** The tally of a primary poll where X has two votes and Y one: Y is vetoed, X leads alone
      and is all the secondary poll is seeded with. */
  lemma {:induction false} TwoBookPrimaryPoll(x: Book, y: Book)
    requires Eligible(x) && Eligible(y)
    ensures var books := map[1 := x, 2 := y];
            var choices := map[1 := Choice(7, 1, 2), 2 := Choice(7, 2, 1)];
            && VetoSet(choices, 7) == {2}
            && ApplyVeto(books, {2})[2].veto
            && Leaders(choices, 7) == {1}
            && EligibleAmong(ApplyVeto(books, {2}), {1}) == {1}
  {
    var books := map[1 := x, 2 := y];
    var choices := map[1 := Choice(7, 1, 2), 2 := Choice(7, 2, 1)];
    assert choices[1].pollId == 7 && choices[2].pollId == 7;
    assert VetoSet(choices, 7) == {2};
    assert 1 in ChoicesOf(choices, 7);
    var m := MaxVotes(choices, 7).value;
    assert m >= 2 by {
      assert choices[1].votes <= m;
    }
    assert m == 2;
    assert Leaders(choices, 7) == {1};
    assert 1 in ApplyVeto(books, {2}) && ApplyVeto(books, {2})[1] == x;
  }

  /** Completing a secondary poll whose one choice is X: X becomes current and the book
      that was current is now read. */
  lemma {:induction false} CrownSecondaryWinner(x: Book, previous: Book)
    requires Eligible(x) && previous.current && !previous.read
    ensures var books := map[1 := x, 2 := previous];
            var choices := map[5 := Choice(9, 1, 3)];
            && Winner(choices, 9) == Ok(1)
            && RetireCurrent(books)[1 := RetireCurrent(books)[1].(current := true)]
               == map[1 := x.(current := true), 2 := previous.(current := false, read := true)]
  {
    var choices := map[5 := Choice(9, 1, 3)];
    assert choices[5].pollId == 9;
    assert 5 in ChoicesOf(choices, 9);
    var m := MaxVotes(choices, 9).value;
    assert m == 3;
    assert Leaders(choices, 9) == {1};
  }
}
