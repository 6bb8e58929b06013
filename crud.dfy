/** The poll store: the queries the book club runs against its three tables,
    and a `Store` object whose methods change the tables the way each commit does. */
module Crud {
  import opened Outcomes
  import opened Models
  import Sets

  type Books = map<nat, Book>
  type Polls = map<nat, Poll>
  type Choices = map<nat, Choice>

  const IdOrTitleMessage := "ID or title must be given"

  // ---------------------------------------------------------------------------
  // Queries over the tables

  /** The books a new primary poll is seeded with (its `not read and not veto and not current` test). */
  function EligibleIds(books: Books): (r: set<nat>)
    ensures r <= books.Keys
    ensures r == EligibleAmong(books, books.Keys)
  {
    set id | id in books && Eligible(books[id])
  }

  /** Those of `ids` that name an eligible book. */
  function EligibleAmong(books: Books, ids: set<nat>): set<nat> {
    set id | id in ids && id in books && Eligible(books[id])
  }

  /** The ids of the choices that belong to poll `p`. */
  function ChoicesOf(choices: Choices, p: nat): set<nat> {
    set c | c in choices && choices[c].pollId == p
  }

  /** The largest element of a non-empty set. */
  function SetMax(s: set<int>): (m: int)
    requires s != {}
    ensures IsMaxOf(s, m)
  {
    MaxExists(s);
    var m :| IsMaxOf(s, m); m
  }

  /** `m` is an element of `s` that no element exceeds. */
  predicate IsMaxOf(s: set<int>, m: int) {
    m in s && forall x :: x in s ==> x <= m
  }

  /** Every non-empty finite set of integers has a largest element. */
  lemma {:induction false} MaxExists(s: set<int>)
    requires s != {}
    ensures exists m :: IsMaxOf(s, m)
    decreases |s|
  {
    var y := Sets.Pick(s);
    if s == {y} {
      assert IsMaxOf(s, y);
    } else {
      MaxExists(s - {y});
      var m :| IsMaxOf(s - {y}, m);
      var top := if y <= m then m else y;
      forall x | x in s ensures x <= top {
        if x != y {
          assert x in s - {y};
        }
      }
      assert IsMaxOf(s, top);
    }
  }

  /** `select max(votes) where poll_id = p`: None (SQL NULL) when the poll has no choices,
      otherwise a vote count some choice of `p` has and no choice of `p` exceeds. */
  function MaxVotes(choices: Choices, p: nat): (m: Option<int>)
    ensures m.None? <==> ChoicesOf(choices, p) == {}
    ensures m.Some? ==> exists c :: c in choices && choices[c].pollId == p && choices[c].votes == m.value
    ensures m.Some? ==> forall c :: c in choices && choices[c].pollId == p ==> choices[c].votes <= m.value
  {
    var counts := set c | c in choices && choices[c].pollId == p :: choices[c].votes;
    assert forall c :: c in choices && choices[c].pollId == p ==> choices[c].votes in counts;
    if counts == {} then
      assert ChoicesOf(choices, p) == {};
      None
    else
      var m := SetMax(counts);
      assert m in counts;
      var c :| c in choices && choices[c].pollId == p && choices[c].votes == m;
      assert c in ChoicesOf(choices, p);
      Some(m)
  }

  /** The books joined to a choice of poll `p` whose votes equal the poll's maximum:
      the leaders a secondary poll is seeded from and the winner is taken from.
      (The join on `Choice.book_id == Book.id` adds nothing once every choice names a book.) */
  function Leaders(choices: Choices, p: nat): (r: set<nat>)
    ensures r == {} <==> ChoicesOf(choices, p) == {}
  {
    match MaxVotes(choices, p)
    case None => {}
    case Some(m) =>
      var top := set c | c in choices && choices[c].pollId == p && choices[c].votes == m :: choices[c].bookId;
      var w :| w in choices && choices[w].pollId == p && choices[w].votes == m;
      assert choices[w].bookId in top;
      top
  }

  /** The leaders are exactly the books of the choices of `p` that no choice of `p` outvotes. */
  lemma LeadersAreTopChoices(choices: Choices, p: nat, b: nat)
    ensures b in Leaders(choices, p) <==> exists c :: TopChoice(choices, p, c) && choices[c].bookId == b
  {
    match MaxVotes(choices, p)
    case None =>
      assert forall c :: c in choices && choices[c].pollId == p ==> c in ChoicesOf(choices, p);
    case Some(m) =>
      if b in Leaders(choices, p) {
        var c :| c in choices && choices[c].pollId == p && choices[c].votes == m && choices[c].bookId == b;
        assert TopChoice(choices, p, c);
      }
      if exists c :: TopChoice(choices, p, c) && choices[c].bookId == b {
        var c :| TopChoice(choices, p, c) && choices[c].bookId == b;
        var w :| w in choices && choices[w].pollId == p && choices[w].votes == m;
        assert choices[w].votes <= choices[c].votes;
      }
  }

  /** Choice `c` of poll `p` has at least as many votes as every choice of `p`. */
  ghost predicate TopChoice(choices: Choices, p: nat, c: nat) {
    && c in choices && choices[c].pollId == p
    && forall d :: d in choices && choices[d].pollId == p ==> choices[d].votes <= choices[c].votes
  }

  /** The books with a choice of poll `p` that has at most one vote. */
  function VetoSet(choices: Choices, p: nat): (r: set<nat>)
    ensures forall c :: c in choices && choices[c].pollId == p && choices[c].votes <= 1 ==> choices[c].bookId in r
    ensures forall b :: b in r ==> exists c :: c in choices && choices[c].pollId == p && choices[c].votes <= 1 && choices[c].bookId == b
  {
    set c | c in choices && choices[c].pollId == p && choices[c].votes <= 1 :: choices[c].bookId
  }

  /** The catalog after `veto = True` is set on every book of `ids`. */
  function ApplyVeto(books: Books, ids: set<nat>): Books {
    map id | id in books :: if id in ids then books[id].(veto := true) else books[id]
  }

  /** The ids of the books marked as being read. */
  function CurrentIds(books: Books): set<nat> {
    set id | id in books && books[id].current
  }

  predicate AtMostOneCurrent(books: Books) {
    forall a, b :: a in books && b in books && books[a].current && books[b].current ==> a == b
  }

  /** The catalog after every current book is turned into a read one. */
  function RetireCurrent(books: Books): Books {
    map id | id in books :: if books[id].current then books[id].(current := false, read := true) else books[id]
  }

  /** The primary polls held for `date`. */
  function PrimaryPollsOn(polls: Polls, date: int): set<nat> {
    set id | id in polls && polls[id].primary && polls[id].date == date
  }

  /** `.one()` over the leaders of poll `p`: the single book at the maximum, or the error
      SQLAlchemy raises when there is none or more than one. */
  ghost function Winner(choices: Choices, p: nat): (r: Result<nat>)
    ensures r.Ok? <==> exists w :: Leaders(choices, p) == {w}
    ensures r.Ok? ==> Leaders(choices, p) == {r.value}
    ensures r == Err(NoResultFound) <==> Leaders(choices, p) == {}
    ensures r.Err? ==> r.error == NoResultFound || r.error == MultipleResultsFound
  {
    var leaders := Leaders(choices, p);
    if leaders == {} then Err(NoResultFound)
    else
      var w :| w in leaders;
      if leaders == {w} then Ok(w) else
        assert exists v :: v in leaders && v != w;
        Err(MultipleResultsFound)
  }

  /** What `_update_choices` seeds a secondary poll for `date` from: the leaders of the one
      primary poll of that date, nothing when there is none, and the error `.scalar()`
      raises when there are several. */
  ghost function SecondaryCandidates(polls: Polls, choices: Choices, date: int): Result<set<nat>> {
    var primaries := PrimaryPollsOn(polls, date);
    if primaries == {} then Ok({})
    else
      var pid :| pid in primaries;
      if primaries == {pid} then Ok(Leaders(choices, pid)) else Err(MultipleResultsFound)
  }

  /** Poll `p` holds exactly one choice, with no votes, for each book of `ids`, and no other choice. */
  ghost predicate SeededWith(choices: Choices, p: nat, ids: set<nat>) {
    && (forall c :: c in choices && choices[c].pollId == p ==> choices[c].bookId in ids && choices[c].votes == 0)
    && (forall b :: b in ids ==> exists c :: c in choices && choices[c].pollId == p && choices[c].bookId == b)
    && OneChoicePerBook(choices, p)
  }

  /** No book has two choices in poll `p`. */
  ghost predicate OneChoicePerBook(choices: Choices, p: nat) {
    forall c1, c2 ::
      (c1 in choices && c2 in choices && choices[c1].pollId == p && choices[c2].pollId == p
       && choices[c1].bookId == choices[c2].bookId) ==> c1 == c2
  }

  /** `after` keeps every choice of `before` and adds choices of poll `p` only. */
  ghost predicate OnlyAddedTo(before: Choices, after: Choices, p: nat) {
    && (forall c :: c in before ==> c in after && after[c] == before[c])
    && (forall c :: c in after && c !in before ==> after[c].pollId == p)
  }

  /** No book loses its veto. */
  ghost predicate VetoesKept(before: Books, after: Books) {
    forall id :: id in before && id in after && before[id].veto ==> after[id].veto
  }

  /** No poll loses its `finished` flag. */
  ghost predicate FinishedKept(before: Polls, after: Polls) {
    forall id :: id in before && id in after && before[id].finished ==> after[id].finished
  }

  /** Adding one fresh zero-vote choice for a book not yet seeded extends the seeding by that book. */
  lemma SeedStep(choices: Choices, p: nat, ids: set<nat>, k: nat, b: nat)
    requires SeededWith(choices, p, ids) && k !in choices && b !in ids
    ensures SeededWith(choices[k := NewChoice(p, b)], p, ids + {b})
  {
    var after := choices[k := NewChoice(p, b)];
    forall x | x in ids + {b}
      ensures exists c :: c in after && after[c].pollId == p && after[c].bookId == x
    {
      if x == b {
        assert after[k].bookId == b;
      } else {
        var c :| c in choices && choices[c].pollId == p && choices[c].bookId == x;
        assert after[c] == choices[c];
      }
    }
  }

  // ---------------------------------------------------------------------------
  // The store

  /** The database: three tables keyed by their autoincrement ids. */
  class Store {
    var books: Books
    var polls: Polls
    var choices: Choices
    var nextBookId: nat
    var nextPollId: nat
    var nextChoiceId: nat

    /** Ids come from the autoincrement counters, and every choice names an existing poll and book. */
    ghost predicate Valid()
      reads this
    {
      && (forall id :: id in books ==> id < nextBookId)
      && (forall id :: id in polls ==> id < nextPollId)
      && (forall id :: id in choices ==> id < nextChoiceId)
      && (forall id :: id in choices ==> choices[id].pollId in polls && choices[id].bookId in books)
    }

    constructor ()
      ensures Valid()
      ensures books == map[] && polls == map[] && choices == map[]
    {
      books, polls, choices := map[], map[], map[];
      nextBookId, nextPollId, nextChoiceId := 1, 1, 1;
    }

    // --- Polls

    /** `create_poll`: adds an unfinished poll with no voters, then seeds its choices.
        The poll stays committed when seeding fails. */
    method CreatePoll(date: int, primary: bool) returns (r: Result<nat>)
      requires Valid()
      modifies this`polls, this`nextPollId, this`choices, this`nextChoiceId
      ensures Valid()
      ensures polls == old(polls)[old(nextPollId) := NewPoll(date, primary)]
      ensures OnlyAddedTo(old(choices), choices, old(nextPollId))
      ensures primary ==> r == Ok(old(nextPollId)) && SeededWith(choices, old(nextPollId), EligibleIds(books))
      ensures !primary ==>
        match SecondaryCandidates(old(polls), old(choices), date)
        case Err(e) => r == Err(e) && choices == old(choices)
        case Ok(leaders) => r == Ok(old(nextPollId)) && SeededWith(choices, old(nextPollId), EligibleAmong(books, leaders))
    {
      var p := nextPollId;
      polls := polls[p := NewPoll(date, primary)];
      nextPollId := nextPollId + 1;
      assert SeededWith(choices, p, {}) by {
        forall c | c in choices ensures choices[c].pollId != p {
        }
      }
      assert !primary ==> PrimaryPollsOn(polls, date) == PrimaryPollsOn(old(polls), date);
      var seeded := UpdateChoices(p);
      r := if seeded.Ok? then Ok(p) else Err(seeded.error);
    }

    /** `_update_choices`: a primary poll gets every eligible book; a secondary poll gets the
        still-eligible leaders of the primary poll of the same date. */
    method UpdateChoices(p: nat) returns (r: Result<()>)
      requires Valid() && p in polls && SeededWith(choices, p, {})
      modifies this`choices, this`nextChoiceId
      ensures Valid()
      ensures OnlyAddedTo(old(choices), choices, p)
      ensures polls[p].primary ==> r.Ok? && SeededWith(choices, p, EligibleIds(books))
      ensures !polls[p].primary ==>
        match SecondaryCandidates(polls, old(choices), polls[p].date)
        case Err(e) => r == Err(e) && choices == old(choices)
        case Ok(leaders) => r.Ok? && SeededWith(choices, p, EligibleAmong(books, leaders))
    {
      if polls[p].primary {
        AddEligibleChoices(p, books.Keys);
        assert EligibleAmong(books, books.Keys) == EligibleIds(books);
        r := Ok(());
      } else {
        var primary := LookupPrimary(polls[p].date);
        match primary
        case Err(e) =>
          SecondaryError(polls, choices, polls[p].date);
          r := Err(e);
        case Ok(None) =>
          assert EligibleAmong(books, {}) == {};
          assert SecondaryCandidates(polls, choices, polls[p].date) == Ok({});
          r := Ok(());
        case Ok(Some(pid)) =>
          var leaders := Leaders(choices, pid);
          assert SecondaryCandidates(polls, choices, polls[p].date) == Ok(leaders);
          assert leaders <= books.Keys;
          AddEligibleChoices(p, leaders);
          r := Ok(());
      }
    }

    /** The two `for book in ...: if eligible: create_choice(...)` loops. */
    method AddEligibleChoices(p: nat, candidates: set<nat>)
      requires Valid() && p in polls && candidates <= books.Keys
      requires SeededWith(choices, p, {})
      modifies this`choices, this`nextChoiceId
      ensures Valid()
      ensures OnlyAddedTo(old(choices), choices, p)
      ensures SeededWith(choices, p, EligibleAmong(books, candidates))
    {
      var todo := candidates;
      assert EligibleAmong(books, candidates - todo) == {};
      while todo != {}
        invariant Valid()
        invariant todo <= candidates
        invariant OnlyAddedTo(old(choices), choices, p)
        invariant SeededWith(choices, p, EligibleAmong(books, candidates - todo))
        decreases todo
      {
        var b :| b in todo;
        ghost var seeded := EligibleAmong(books, candidates - todo);
        assert b !in seeded;
        if Eligible(books[b]) {
          ghost var k := nextChoiceId;
          SeedStep(choices, p, seeded, k, b);
          var _ := CreateChoice(p, b);
          assert EligibleAmong(books, candidates - (todo - {b})) == seeded + {b};
        } else {
          assert EligibleAmong(books, candidates - (todo - {b})) == seeded;
        }
        todo := todo - {b};
      }
      assert candidates - todo == candidates;
    }

    /** `complete_poll`: marks the poll finished; for a primary poll vetoes its low scorers and
        opens the secondary poll of the same date, otherwise crowns the winner.
        Nothing stops a finished poll from being completed again. */
    method CompletePoll(pollId: nat) returns (r: Result<()>)
      requires Valid()
      modifies this`books, this`polls, this`nextPollId, this`choices, this`nextChoiceId
      ensures Valid()
      ensures pollId !in old(polls) ==>
        r == Err(NotFound) && books == old(books) && polls == old(polls) && choices == old(choices)
      ensures pollId in old(polls) && old(polls)[pollId].primary ==>
        var finished := old(polls)[pollId].(finished := true);
        var secondary := old(nextPollId);
        && books == ApplyVeto(old(books), VetoSet(old(choices), pollId))
        && polls == old(polls)[pollId := finished][secondary := NewPoll(finished.date, false)]
        && OnlyAddedTo(old(choices), choices, secondary)
        && (PrimaryPollsOn(old(polls), finished.date) == {pollId} ==>
              r == Ok(()) && SeededWith(choices, secondary, EligibleAmong(books, Leaders(old(choices), pollId))))
        && (PrimaryPollsOn(old(polls), finished.date) != {pollId} ==>
              r == Err(MultipleResultsFound) && choices == old(choices))
      ensures pollId in old(polls) && !old(polls)[pollId].primary ==>
        && polls == old(polls)[pollId := old(polls)[pollId].(finished := true)]
        && choices == old(choices)
        && (!AtMostOneCurrent(old(books)) ==> r == Err(MultipleResultsFound) && books == old(books))
        && (AtMostOneCurrent(old(books)) ==>
              match Winner(old(choices), pollId)
              case Err(e) => r == Err(e) && books == RetireCurrent(old(books))
              case Ok(w) => r == Ok(()) && books == RetireCurrent(old(books))[w := RetireCurrent(old(books))[w].(current := true)])
      ensures old(AtMostOneCurrent(books)) ==> AtMostOneCurrent(books)
      ensures VetoesKept(old(books), books) && FinishedKept(old(polls), polls)
    {
      if pollId !in polls {
        return Err(NotFound);
      }
      var poll := polls[pollId];
      polls := polls[pollId := poll.(finished := true)];
      if poll.primary {
        CheckVeto(pollId);
        ghost var primaries := PrimaryPollsOn(polls, poll.date);
        assert pollId in primaries;
        var created := CreatePoll(poll.date, false);
        r := if created.Ok? then Ok(()) else Err(created.error);
        ghost var leaders := Leaders(old(choices), pollId);
        if primaries == {pollId} {
          assert SecondaryCandidates(old(polls)[pollId := poll.(finished := true)], old(choices), poll.date) == Ok(leaders);
        } else {
          assert exists q :: q in primaries && q != pollId;
          SecondaryError(old(polls)[pollId := poll.(finished := true)], old(choices), poll.date);
        }
        assert PrimaryPollsOn(old(polls), poll.date) == primaries;
      } else {
        r := UpdateCurrent(pollId);
      }
    }

    /** `_update_current`: retires the book being read, then makes the single leader current.
        The retirement stays committed when `.one()` then fails. */
    method UpdateCurrent(pollId: nat) returns (r: Result<()>)
      requires Valid()
      modifies this`books
      ensures Valid()
      ensures !AtMostOneCurrent(old(books)) ==> r == Err(MultipleResultsFound) && books == old(books)
      ensures AtMostOneCurrent(old(books)) ==>
        match Winner(choices, pollId)
        case Err(e) => r == Err(e) && books == RetireCurrent(old(books))
        case Ok(w) => r == Ok(()) && books == RetireCurrent(old(books))[w := RetireCurrent(old(books))[w].(current := true)]
      ensures r.Ok? ==> exists w :: CurrentIds(books) == {w}
      ensures AtMostOneCurrent(old(books)) ==> AtMostOneCurrent(books)
      ensures VetoesKept(old(books), books)
    {
      var retired := RetireCurrentBook();
      if retired.Err? {
        return retired;
      }
      RetiredHasNoCurrent(old(books));
      r := CrownWinner(pollId);
    }

    /** The second half of `_update_current`: `.one()` over the leaders of the poll; the single
        leader becomes current, and no leader or several leave the catalog as it is. */
    method CrownWinner(pollId: nat) returns (r: Result<()>)
      requires Valid() && CurrentIds(books) == {}
      modifies this`books
      ensures Valid()
      ensures match Winner(choices, pollId)
        case Err(e) => r == Err(e) && books == old(books)
        case Ok(w) => r == Ok(()) && books == old(books)[w := old(books)[w].(current := true)]
      ensures r.Ok? ==> exists w :: CurrentIds(books) == {w}
      ensures AtMostOneCurrent(books)
      ensures VetoesKept(old(books), books)
    {
      RetireNone(books);
      RetiredHasNoCurrent(books);
      var leaders := Leaders(choices, pollId);
      if leaders == {} {
        r := Err(NoResultFound);
      } else {
        var w :| w in leaders;
        if leaders == {w} {
          LeadersAreBooks(books, choices, pollId);
          Crown(books, w);
          books := books[w := books[w].(current := true)];
          r := Ok(());
        } else {
          r := Err(MultipleResultsFound);
        }
      }
    }

    /** The first half of `_update_current`: the book being read, if any, becomes read and
        not current; two current books make `.one_or_none()` fail with nothing changed. */
    method RetireCurrentBook() returns (r: Result<()>)
      requires Valid()
      modifies this`books
      ensures Valid()
      ensures r.Err? <==> !AtMostOneCurrent(old(books))
      ensures r.Err? ==> r.error == MultipleResultsFound && books == old(books)
      ensures r.Ok? ==> books == RetireCurrent(old(books))
    {
      var current := GetCurrentBook();
      if current.Err? {
        return Err(current.error);
      }
      if current.value.Some? {
        var id := current.value.value;
        RetireSingle(books, id);
        books := books[id := books[id].(current := false, read := true)];
      } else {
        RetireNone(books);
      }
      r := Ok(());
    }

    /** `_check_veto`: sets `veto` on every book with a choice of at most one vote in the poll. */
    method CheckVeto(pollId: nat)
      requires Valid()
      modifies this`books
      ensures Valid()
      ensures books == ApplyVeto(old(books), VetoSet(choices, pollId))
    {
      var vetoed := VetoSet(choices, pollId);
      var todo := vetoed;
      while todo != {}
        invariant Valid()
        invariant todo <= vetoed
        invariant books.Keys == old(books).Keys
        invariant books == ApplyVeto(old(books), vetoed - todo)
        decreases todo
      {
        var b :| b in todo;
        assert b in books;
        books := books[b := books[b].(veto := true)];
        todo := todo - {b};
      }
    }

    /** The `.scalar()` lookup of the primary poll of `date`. */
    method LookupPrimary(date: int) returns (r: Result<Option<nat>>)
      ensures r == Ok(None) <==> PrimaryPollsOn(polls, date) == {}
      ensures r.Ok? && r.value.Some? ==> PrimaryPollsOn(polls, date) == {r.value.value}
      ensures r.Err? ==> r.error == MultipleResultsFound
      ensures r.Err? <==> exists a, b :: a in PrimaryPollsOn(polls, date) && b in PrimaryPollsOn(polls, date) && a != b
    {
      var primaries := PrimaryPollsOn(polls, date);
      if primaries == {} {
        return Ok(None);
      }
      var id :| id in primaries;
      if primaries == {id} {
        r := Ok(Some(id));
      } else {
        var other :| other in primaries && other != id;
        r := Err(MultipleResultsFound);
      }
    }

    /** `check_poll_exists`: whether a primary poll, finished or not, is held for `date`. */
    method CheckPollExists(date: int) returns (r: Result<bool>)
      ensures r.Ok? ==> (r.value <==> PrimaryPollsOn(polls, date) != {})
      ensures r.Err? <==> exists a, b :: a in PrimaryPollsOn(polls, date) && b in PrimaryPollsOn(polls, date) && a != b
      ensures r.Err? ==> r.error == MultipleResultsFound
    {
      var found := LookupPrimary(date);
      r := if found.Ok? then Ok(found.value.Some?) else Err(found.error);
    }

    /** `get_poll`. */
    method GetPoll(pollId: nat) returns (r: Option<Poll>)
      ensures r.Some? <==> pollId in polls
      ensures r.Some? ==> r.value == polls[pollId]
    {
      r := if pollId in polls then Some(polls[pollId]) else None;
    }

    /** `edit_poll`: moves a poll to another date. */
    method EditPoll(pollId: nat, date: int) returns (r: Result<()>)
      requires Valid()
      modifies this`polls
      ensures Valid()
      ensures pollId in old(polls) ==> r == Ok(()) && polls == old(polls)[pollId := old(polls)[pollId].(date := date)]
      ensures pollId !in old(polls) ==> r == Err(NotFound) && polls == old(polls)
    {
      if pollId !in polls {
        return Err(NotFound);
      }
      polls := polls[pollId := polls[pollId].(date := date)];
      r := Ok(());
    }

    /** `delete_poll`: removes the poll; the database cascades the delete to its choices. */
    method DeletePoll(pollId: nat)
      requires Valid()
      modifies this`polls, this`choices
      ensures Valid()
      ensures polls == old(polls) - {pollId}
      ensures choices == map c | c in old(choices) && old(choices)[c].pollId != pollId :: old(choices)[c]
    {
      polls := polls - {pollId};
      choices := map c | c in choices && choices[c].pollId != pollId :: choices[c];
    }

    // --- Choices

    /** `create_choice`: a new zero-vote choice; a poll or book that does not exist violates a foreign key. */
    method CreateChoice(pollId: nat, bookId: nat) returns (r: Result<nat>)
      requires Valid()
      modifies this`choices, this`nextChoiceId
      ensures Valid()
      ensures pollId in polls && bookId in books ==>
        && r == Ok(old(nextChoiceId))
        && choices == old(choices)[old(nextChoiceId) := NewChoice(pollId, bookId)]
        && nextChoiceId == old(nextChoiceId) + 1
      ensures !(pollId in polls && bookId in books) ==> r == Err(IntegrityError) && choices == old(choices)
    {
      if pollId !in polls || bookId !in books {
        return Err(IntegrityError);
      }
      r := Ok(nextChoiceId);
      choices := choices[nextChoiceId := NewChoice(pollId, bookId)];
      nextChoiceId := nextChoiceId + 1;
    }

    /** `update_vote`: adds `votes` to one choice and changes nothing else. */
    method UpdateVote(choiceId: nat, votes: int := 1) returns (r: Result<()>)
      requires Valid()
      modifies this`choices
      ensures Valid()
      ensures choiceId in old(choices) ==>
        r == Ok(()) && choices == old(choices)[choiceId := old(choices)[choiceId].(votes := old(choices)[choiceId].votes + votes)]
      ensures choiceId !in old(choices) ==> r == Err(NotFound) && choices == old(choices)
    {
      if choiceId !in choices {
        return Err(NotFound);
      }
      choices := choices[choiceId := choices[choiceId].(votes := choices[choiceId].votes + votes)];
      r := Ok(());
    }

    /** `update_voters`: appends the user to the poll's voter list, without checking for repeats. */
    method UpdateVoters(pollId: nat, user: string) returns (r: Result<()>)
      requires Valid()
      modifies this`polls
      ensures Valid()
      ensures pollId in old(polls) ==>
        && r == Ok(())
        && polls == old(polls)[pollId := old(polls)[pollId].(usersVoted := old(polls)[pollId].usersVoted + [user])]
        && |polls[pollId].usersVoted| == |old(polls)[pollId].usersVoted| + 1
        && user in polls[pollId].usersVoted
      ensures pollId !in old(polls) ==> r == Err(NotFound) && polls == old(polls)
    {
      if pollId !in polls {
        return Err(NotFound);
      }
      var poll := polls[pollId];
      polls := polls[pollId := poll.(usersVoted := poll.usersVoted + [user])];
      assert polls[pollId].usersVoted[|poll.usersVoted|] == user;
      r := Ok(());
    }

    /** `get_voters`. */
    method GetVoters(pollId: nat) returns (r: Result<seq<string>>)
      ensures pollId in polls ==> r == Ok(polls[pollId].usersVoted)
      ensures pollId !in polls ==> r == Err(NotFound)
    {
      r := if pollId in polls then Ok(polls[pollId].usersVoted) else Err(NotFound);
    }

    // --- Books

    /** `create_book`: a new book with all three flags cleared. */
    method CreateBook(data: BookData) returns (id: nat)
      requires Valid()
      modifies this`books, this`nextBookId
      ensures Valid()
      ensures id == old(nextBookId) && id !in old(books)
      ensures books == old(books)[id := NewBook(data)]
      ensures old(AtMostOneCurrent(books)) ==> AtMostOneCurrent(books)
    {
      id := nextBookId;
      books := books[id := NewBook(data)];
      nextBookId := nextBookId + 1;
    }

    /** `get_book`: by id when an id is given, else by title; with neither a ValueError.
        When several books share the title, any one of them. */
    method GetBook(bookId: Option<nat>, title: Option<string>) returns (r: Result<Option<nat>>)
      ensures bookId.Some? ==> r == Ok(if bookId.value in books then Some(bookId.value) else None)
      ensures bookId.None? && title.None? ==> r == Err(ValueError(IdOrTitleMessage))
      ensures bookId.None? && title.Some? ==> r.Ok?
      ensures bookId.None? && title.Some? && r.Ok? ==>
        && (r.value.None? <==> forall id :: id in books ==> books[id].data.title != title.value)
        && (r.value.Some? ==> r.value.value in books && books[r.value.value].data.title == title.value)
    {
      if bookId.Some? {
        r := Ok(if bookId.value in books then Some(bookId.value) else None);
      } else if title.Some? {
        var matches := set id | id in books && books[id].data.title == title.value;
        if matches == {} {
          assert forall id :: id in books && books[id].data.title == title.value ==> id in matches;
          r := Ok(None);
        } else {
          var id :| id in matches;
          r := Ok(Some(id));
        }
      } else {
        r := Err(ValueError(IdOrTitleMessage));
      }
    }

    /** `get_current_book`: `.one_or_none()` over the current books. */
    method GetCurrentBook() returns (r: Result<Option<nat>>)
      ensures r.Err? <==> !AtMostOneCurrent(books)
      ensures r.Err? ==> r.error == MultipleResultsFound
      ensures r == Ok(None) <==> CurrentIds(books) == {}
      ensures r.Ok? && r.value.Some? ==> CurrentIds(books) == {r.value.value}
    {
      var current := CurrentIds(books);
      if current == {} {
        assert forall a :: a in books && books[a].current ==> a in current;
        return Ok(None);
      }
      var id :| id in current;
      if current == {id} {
        forall a, b | a in books && b in books && books[a].current && books[b].current ensures a == b {
          assert a in current && b in current;
        }
        r := Ok(Some(id));
      } else {
        var other :| other in current && other != id;
        assert books[id].current && books[other].current;
        r := Err(MultipleResultsFound);
      }
    }

    /** `delete_book`: removes the book; the database cascades the delete to its choices. */
    method DeleteBook(bookId: nat)
      requires Valid()
      modifies this`books, this`choices
      ensures Valid()
      ensures books == old(books) - {bookId}
      ensures choices == map c | c in old(choices) && old(choices)[c].bookId != bookId :: old(choices)[c]
      ensures old(AtMostOneCurrent(books)) ==> AtMostOneCurrent(books)
      ensures VetoesKept(old(books), books)
    {
      books := books - {bookId};
      choices := map c | c in choices && choices[c].bookId != bookId :: choices[c];
    }
  }

  /** Retiring the only current book is what `RetireCurrent` does. */
  lemma RetireSingle(books: Books, id: nat)
    requires CurrentIds(books) == {id}
    ensures books[id := books[id].(current := false, read := true)] == RetireCurrent(books)
  {
    assert id in CurrentIds(books);
    forall x | x in books && x != id ensures !books[x].current {
      assert books[x].current ==> x in CurrentIds(books);
    }
  }

  /** With no current book there is nothing to retire. */
  lemma RetireNone(books: Books)
    requires CurrentIds(books) == {}
    ensures books == RetireCurrent(books)
  {
    forall x | x in books ensures !books[x].current {
      assert books[x].current ==> x in CurrentIds(books);
    }
  }

  /** After retirement no book is current, and no veto is lost. */
  lemma RetiredHasNoCurrent(books: Books)
    ensures CurrentIds(RetireCurrent(books)) == {}
    ensures AtMostOneCurrent(RetireCurrent(books))
    ensures VetoesKept(books, RetireCurrent(books))
  {
  }

  /** Making one book current in a catalog without a current book leaves exactly that one current. */
  lemma Crown(books: Books, w: nat)
    requires CurrentIds(books) == {} && w in books
    ensures CurrentIds(books[w := books[w].(current := true)]) == {w}
    ensures AtMostOneCurrent(books[w := books[w].(current := true)])
  {
    var after := books[w := books[w].(current := true)];
    forall x | x in after && after[x].current ensures x == w {
      assert x != w ==> x in CurrentIds(books);
    }
    assert w in CurrentIds(after);
  }

  /** Under foreign-key integrity every leader is a book of the catalog. */
  lemma LeadersAreBooks(books: Books, choices: Choices, p: nat)
    requires forall c :: c in choices ==> choices[c].bookId in books
    ensures Leaders(choices, p) <= books.Keys
  {
  }

  /** `.scalar()` raises when a second primary poll shares the date. */
  lemma SecondaryError(polls: Polls, choices: Choices, date: int)
    requires exists a, b :: a in PrimaryPollsOn(polls, date) && b in PrimaryPollsOn(polls, date) && a != b
    ensures SecondaryCandidates(polls, choices, date) == Err(MultipleResultsFound)
  {
  }
}
