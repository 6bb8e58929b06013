/** The book-club routes that decide something: the landing page, adding a book, opening a
    poll for a month, showing a ballot and counting a submitted one. Each route is a method
    over the `Store`; templates, cookies and redirects are reduced to the data they carry. */
module Router {
  import opened Outcomes
  import opened Models
  import opened Crud
  import opened Ballot
  import Sets

  /** The start of what `int` complains about when the text is not a number; the message
      goes on with the rejected text, which this model does not carry. */
  const IntLiteralMessage := "invalid literal for int() with base 10"

  // ---------------------------------------------------------------------------
  // The landing page

  /** The polls the landing page offers: those not yet finished. */
  function OpenPolls(polls: Polls): (r: set<nat>)
    ensures forall id :: id in r <==> id in polls && !polls[id].finished
  {
    set id | id in polls && !polls[id].finished
  }

  /** What the landing page shows: the open polls, the books that could still be put on a poll,
      and the book being read, if any. */
  datatype Landing = Landing(openPolls: set<nat>, books: set<nat>, current: Option<nat>)

  /** `root`. It fails the way `get_current_book` does when two books are current. */
  method Root(store: Store) returns (r: Result<Landing>)
    ensures r.Err? <==> !AtMostOneCurrent(store.books)
    ensures r.Err? ==> r.error == MultipleResultsFound
    ensures r.Ok? ==> r.value.openPolls == OpenPolls(store.polls) && r.value.books == EligibleIds(store.books)
    ensures r.Ok? ==> (r.value.current.None? <==> CurrentIds(store.books) == {})
    ensures r.Ok? && r.value.current.Some? ==> CurrentIds(store.books) == {r.value.current.value}
  {
    var current := store.GetCurrentBook();
    if current.Err? {
      return Err(current.error);
    }
    r := Ok(Landing(OpenPolls(store.polls), EligibleIds(store.books), current.value));
  }

  /** Completing a poll takes it, and only it, off the landing page. */
  lemma FinishingClosesPoll(polls: Polls, p: nat)
    requires p in polls
    ensures OpenPolls(polls[p := polls[p].(finished := true)]) == OpenPolls(polls) - {p}
  {
  }

  /** A poll stays listed until it is finished: opening polls never hides another one. */
  lemma NewPollListed(polls: Polls, p: nat, date: int, primary: bool)
    requires p !in polls
    ensures OpenPolls(polls[p := NewPoll(date, primary)]) == OpenPolls(polls) + {p}
  {
  }

  /** A vetoed book leaves the list of books, and no other book does. */
  lemma VetoedLeaveList(books: Books, ids: set<nat>)
    ensures EligibleIds(ApplyVeto(books, ids)) == EligibleIds(books) - ids
  {
  }

  /** Crowning a winner takes it and the retired book off the list. */
  lemma CrownedLeavesList(books: Books, w: nat)
    requires w in books
    ensures EligibleIds(RetireCurrent(books)[w := RetireCurrent(books)[w].(current := true)])
         == EligibleIds(books) - {w}
  {
  }

  /** A new book is listed straight away. */
  lemma NewBookListed(books: Books, id: nat, data: BookData)
    requires id !in books
    ensures EligibleIds(books[id := NewBook(data)]) == EligibleIds(books) + {id}
  {
  }

  // ---------------------------------------------------------------------------
  // Adding a book

  datatype BookCreation = BookExists | BookAdded(id: nat)

  /** `create_book` (the route): a book whose title is already in the catalog is not stored
      again; otherwise the scraped record is added. */
  method AddBook(store: Store, data: BookData) returns (r: BookCreation)
    requires store.Valid()
    modifies store`books, store`nextBookId
    ensures store.Valid()
    ensures (exists id :: id in old(store.books) && old(store.books)[id].data.title == data.title) ==>
      r == BookExists && store.books == old(store.books)
    ensures (forall id :: id in old(store.books) ==> old(store.books)[id].data.title != data.title) ==>
      r == BookAdded(old(store.nextBookId)) && store.books == old(store.books)[r.id := NewBook(data)]
    ensures old(AtMostOneCurrent(store.books)) ==> AtMostOneCurrent(store.books)
  {
    var found := store.GetBook(None, Some(data.title));
    if found.Ok? && found.value.Some? {
      r := BookExists;
    } else {
      var id := store.CreateBook(data);
      r := BookAdded(id);
    }
  }

  // ---------------------------------------------------------------------------
  // Opening a poll

  datatype PollCreation = Skipped | Created(id: nat)

  /** `create_poll` (the route): the form's `YYYY-MM` becomes the month number; when a primary
      poll of that month exists, finished or not, nothing is created; otherwise a primary poll
      is opened and seeded. A date `int` rejects and the `.scalar()` failure surface as errors. */
  method CreatePollFromForm(store: Store, date: string) returns (r: Result<PollCreation>)
    requires store.Valid()
    modifies store`polls, store`nextPollId, store`choices, store`nextChoiceId
    ensures store.Valid()
    ensures FormDate(date).None? ==>
      r == Err(ValueError(IntLiteralMessage)) && store.polls == old(store.polls) && store.choices == old(store.choices)
    ensures FormDate(date).Some? && PrimaryPollsOn(old(store.polls), FormDate(date).value) != {} ==>
      && store.polls == old(store.polls) && store.choices == old(store.choices)
      && (r == Ok(Skipped) <==> exists id :: PrimaryPollsOn(old(store.polls), FormDate(date).value) == {id})
      && (r == Ok(Skipped) || r == Err(MultipleResultsFound))
    ensures FormDate(date).Some? && PrimaryPollsOn(old(store.polls), FormDate(date).value) == {} ==>
      var id := old(store.nextPollId);
      && r == Ok(Created(id))
      && store.polls == old(store.polls)[id := NewPoll(FormDate(date).value, true)]
      && OnlyAddedTo(old(store.choices), store.choices, id)
      && SeededWith(store.choices, id, EligibleIds(store.books))
  {
    var month := FormDate(date);
    if month.None? {
      return Err(ValueError(IntLiteralMessage));
    }
    var d := month.value;
    var alreadyOpen := store.CheckPollExists(d);
    ghost var primaries := PrimaryPollsOn(store.polls, d);
    if alreadyOpen.Err? {
      r := Err(alreadyOpen.error);
      assert !exists id :: primaries == {id} by {
        var a, b :| a in primaries && b in primaries && a != b;
      }
    } else if alreadyOpen.value {
      var some := Sets.Pick(primaries);
      assert primaries == {some} by {
        forall q | q in primaries ensures q == some {
          assert !(q in primaries && some in primaries && q != some);
        }
      }
      r := Ok(Skipped);
    } else {
      var created := store.CreatePoll(d, true);
      r := Ok(Created(created.value));
    }
  }

  // ---------------------------------------------------------------------------
  // Showing a ballot

  datatype PollPage = RedirectHome | BallotPage(date: int, primary: bool, choices: set<nat>)

  /** `get_poll` (the route): a visitor whose `User` cookie is already in the poll's voter list
      is sent back to the landing page; anyone else gets the ballot of the poll's choices. */
  method ShowPoll(store: Store, pollId: nat, cookieUser: Option<string>) returns (r: Result<PollPage>)
    ensures pollId !in store.polls ==> r == Err(NotFound)
    ensures pollId in store.polls ==> r.Ok?
    ensures r.Ok? ==> (r.value == RedirectHome <==> cookieUser.Some? && cookieUser.value in store.polls[pollId].usersVoted)
    ensures r.Ok? && r.value.BallotPage? ==>
      var poll := store.polls[pollId];
      r.value == BallotPage(poll.date, poll.primary, ChoicesOf(store.choices, pollId))
  {
    var voters := store.GetVoters(pollId);
    if voters.Err? {
      return Err(voters.error);
    }
    if cookieUser.Some? && cookieUser.value in voters.value {
      return Ok(RedirectHome);
    }
    var poll := store.GetPoll(pollId);
    r := Ok(BallotPage(poll.value.date, poll.value.primary, ChoicesOf(store.choices, pollId)));
  }

  // ---------------------------------------------------------------------------
  // Counting a ballot

  /** Once `ParseBallot` has failed on a prefix, the whole form fails. */
  lemma {:induction false} ParseBallotFailureSticks(items: seq<(string, string)>, i: nat)
    requires i <= |items| && ParseBallot(items[..i]).None?
    ensures ParseBallot(items).None?
    decreases |items| - i
  {
    if i < |items| {
      assert items[..i + 1][..i] == items[..i];
      ParseBallotFailureSticks(items, i + 1);
    } else {
      assert items[..i] == items;
    }
  }

  /** The loop of `submit_poll` that builds `choice_values` from the form's items. */
  method CollectChoiceValues(items: seq<(string, string)>) returns (r: Option<seq<Vote>>)
    ensures r == ParseBallot(items)
  {
    var values: seq<Vote> := [];
    var i := 0;
    while i < |items|
      invariant 0 <= i <= |items|
      invariant ParseBallot(items[..i]) == Some(values)
    {
      var (k, v) := items[i];
      assert items[..i + 1][..i] == items[..i];
      if IsDigitString(k) {
        var w := ParseWeight(v);
        if w.None? {
          ParseBallotFailureSticks(items, i + 1);
          return None;
        }
        values := values + [Vote(DigitsValue(k), w.value)];
      }
      i := i + 1;
    }
    assert items[..i] == items;
    r := Some(values);
  }

  /** The `update_vote` loop of `submit_poll`: the weights go to their choices in order, and a
      choice id without a row stops the loop with the earlier weights committed. */
  method CastVotes(store: Store, votes: seq<Vote>) returns (complete: bool)
    requires store.Valid()
    modifies store`choices
    ensures store.Valid()
    ensures (store.choices, complete) == ApplyVotes(old(store.choices), votes)
  {
    var i := 0;
    while i < |votes|
      invariant 0 <= i <= |votes|
      invariant store.Valid()
      invariant ApplyVotes(store.choices, votes[i..]) == ApplyVotes(old(store.choices), votes)
    {
      var vote := votes[i];
      assert votes[i..][0] == vote && votes[i..][1..] == votes[i + 1..];
      var updated := store.UpdateVote(vote.choiceId, vote.weight);
      if updated.Err? {
        return false;
      }
      i := i + 1;
    }
    assert votes[i..] == [];
    complete := true;
  }

  /** `submit_poll`: reads the ballot, inverts ranks, adds each weight to its choice in order
      and then appends the voter. A value `int` rejects changes nothing; a choice id without a
      row stops the request after the earlier weights were committed and before the voter is
      recorded. Nothing checks that the user has not voted before, or that the choices belong
      to this poll. */
  method SubmitPoll(store: Store, pollId: nat, user: string, items: seq<(string, string)>) returns (r: Result<()>)
    requires store.Valid()
    modifies store`choices, store`polls
    ensures store.Valid()
    ensures BallotWeights(items).None? ==>
      r == Err(ValueError(IntLiteralMessage)) && store.choices == old(store.choices) && store.polls == old(store.polls)
    ensures BallotWeights(items).Some? ==>
      store.choices == ApplyVotes(old(store.choices), BallotWeights(items).value).0
    ensures BallotWeights(items).Some? && !ApplyVotes(old(store.choices), BallotWeights(items).value).1 ==>
      r == Err(NotFound) && store.polls == old(store.polls)
    ensures BallotWeights(items).Some? && ApplyVotes(old(store.choices), BallotWeights(items).value).1 ==>
      if pollId in old(store.polls) then
        var poll := old(store.polls)[pollId];
        r == Ok(()) && store.polls == old(store.polls)[pollId := poll.(usersVoted := poll.usersVoted + [user])]
      else
        r == Err(NotFound) && store.polls == old(store.polls)
  {
    var parsed := CollectChoiceValues(items);
    if parsed.None? {
      return Err(ValueError(IntLiteralMessage));
    }
    var weights := Invert(parsed.value);
    assert BallotWeights(items) == Some(weights);
    var complete := CastVotes(store, weights);
    if !complete {
      return Err(NotFound);
    }
    r := store.UpdateVoters(pollId, user);
  }
}
