# Book-club poll engine

This project models the book club of the `midnightsnack` site in Dafny. The club keeps a
catalog of books. Each month an administrator opens a *primary* poll, seeded with one
zero-vote choice for every book that is not read, not vetoed and not being read.
Members vote with checkboxes. When the primary poll is completed, every book with at most
one vote is vetoed for good, and a *secondary* poll for the same month is opened. It is
seeded with the books that tied at the maximum and are still eligible. Members rank those
books, and each rank is turned into a weight. Completing the secondary poll retires the book
being read and makes the single leader current.

The model has these modules:

- `Models` (`models.dfy`): the three records and their column defaults.
- `Crud` (`crud.dfy`):
  - the queries over the tables as pure functions (eligible books, maximum votes, leaders, veto set, `.one()` winner, `.scalar()` primary lookup);
  - a `Store` class. Its `books`, `polls` and `choices` maps are keyed by autoincrement ids, and each method changes them the way the corresponding `crud.py` function commits.
- `Tally` (`tally.dfy`): lemmas about vetoing, leading, winning and seeding. Both worked scenarios of the poll cycle appear as lemmas.
- `Ballot` (`ballot.dfy`): the form handling of the routes as pure functions:
  - the `YYYY-MM` to `YYYYMM` conversion;
  - reading `(choice_id, weight)` pairs from the form;
  - rank inversion;
  - adding the weights to the choices.
- `Router` (`router.dfy`): the routes as methods over a `Store`. They cover:
  - the landing page;
  - adding a book, with the duplicate-title check;
  - opening a poll, with the duplicate-month skip;
  - showing a ballot, with the has-voted guard;
  - submitting a ballot.
- `Schema` and `LegacySchema` (`schema.dfy`, `legacy_schema.dfy`): the registration-form validators of `snack/schema.py` and of the older top-level `schema.py`.
- `Outcomes` and `Sets`: an `Option`/`Result` pair with the errors the code can raise, and a set-element lemma.

Each SQLAlchemy failure becomes an explicit error result:

- `.first()` that finds nothing, followed by attribute access, is `NotFound`.
- `.one()` with no row is `NoResultFound`; with several rows it is `MultipleResultsFound`.
- `Query.scalar()` and `.one_or_none()` over several rows are `MultipleResultsFound`.
- A choice naming a missing poll or book is `IntegrityError`.
- `int()` rejecting its text is `ValueError`, and so is `get_book` called with neither an id nor a title.

Work committed before a failure stays committed. For example, completing a secondary poll
whose top vote count is tied still retires the book that was being read.

Some behaviours of the code are easy to miss:

- Nothing keeps votes non-negative. Votes are plain integers and can become negative, through `int(v)` on a negative form value or through inverting a rank above the ballot length.
- Opening a poll for a month that already has a primary poll, finished or not, does nothing and reports no error (with two or more such polls, `MultipleResultsFound`).
- A tie in a secondary poll makes `.one()` raise; there is no tie-break.
- `max(votes)` over a poll without choices is SQL NULL, not 0, so there are no leaders.

## Model

| member | source | states |
|---|---|---|
| Models.NewPoll | snack/bookclub/models.py:6-12 | a new poll has the given date and kind, is not finished and has an empty voter list |
| Models.NewChoice | snack/bookclub/models.py:17-22 | a new choice belongs to the given poll and book and has 0 votes |
| Models.NewBook | snack/bookclub/models.py:28-38 | a new book keeps its data and is neither current, read nor vetoed |
| Crud.MaxVotes | snack/bookclub/crud.py:29-31 | the maximum is NULL exactly when the poll has no choices; otherwise some choice of the poll has it and none exceeds it |
| Crud.EligibleIds | snack/bookclub/crud.py:22-23 | the seeding candidates are the catalog's books that are not read, not vetoed and not current, the same as filtering all ids by that test |
| Crud.Leaders | snack/bookclub/crud.py:29-38 | the leader set is empty exactly when the poll has no choices |
| Crud.LeadersAreTopChoices | snack/bookclub/crud.py:67-72 | a book is a leader exactly when it has a choice in the poll that no choice of the poll outvotes |
| Crud.VetoSet | snack/bookclub/crud.py:82-88 | a book is in the veto set exactly when it has a choice of at most one vote in the poll |
| Crud.Winner | snack/bookclub/crud.py:67-74 | `.one()` over the leaders succeeds exactly when there is a single leader, and returns it; it is NoResultFound exactly when there is none; otherwise it is MultipleResultsFound |
| Crud.SeedStep | snack/bookclub/crud.py:22-24 | adding one zero-vote choice for a book not yet seeded extends the seeding by exactly that book |
| Crud.Store.CreatePoll | snack/bookclub/crud.py:8-16 | adds an unfinished poll with no voters under the next id and only adds choices of that poll; a primary poll is seeded with exactly one zero-vote choice per eligible book; a secondary poll is seeded from the same month's primary poll, or fails with the `.scalar()` error and no choices; ids and foreign keys stay valid |
| Crud.Store.UpdateChoices | snack/bookclub/crud.py:19-41 | primary: one zero-vote choice for each eligible book and nothing else; secondary: one for each eligible leader of the month's primary poll, none when there is no primary poll, MultipleResultsFound when there are several |
| Crud.Store.AddEligibleChoices | snack/bookclub/crud.py:39-41 | the loop creates exactly one zero-vote choice for each eligible book among the candidates and changes no other choice |
| Crud.Store.CompletePoll | snack/bookclub/crud.py:44-54 | an unknown poll is NotFound with nothing changed; otherwise the poll is finished even if it already was; a primary poll vetoes the books that got at most one vote and opens a secondary poll for the same date, seeded with the eligible leaders; a secondary poll retires the current book and crowns the single leader, or returns the `.one()` error with the retirement kept; at most one book stays current; no veto and no finished flag is lost |
| Crud.Store.UpdateCurrent | snack/bookclub/crud.py:57-77 | with two current books it fails and changes nothing; otherwise the current book becomes read and not current, then the single leader becomes current, or the `.one()` error is returned with the retirement kept; success leaves exactly one current book |
| Crud.Store.RetireCurrentBook | snack/bookclub/crud.py:59-64 | with two current books it fails with MultipleResultsFound and changes nothing; otherwise the book being read, if any, becomes read and not current |
| Crud.Store.CrownWinner | snack/bookclub/crud.py:66-77 | in a catalog without a current book, the single leader becomes current; no leader or several return the `.one()` error with the catalog unchanged; at most one book is current afterwards and no veto is lost |
| Crud.Store.CheckVeto | snack/bookclub/crud.py:80-91 | the loop sets `veto` on exactly the books with a choice of at most one vote in the poll and changes nothing else |
| Crud.Store.LookupPrimary | snack/bookclub/crud.py:26-28 | `.scalar()` gives None exactly when the month has no primary poll, the poll when it has one, and MultipleResultsFound exactly when it has two or more |
| Crud.Store.CheckPollExists | snack/bookclub/crud.py:108-110 | true exactly when a primary poll, finished or not, exists for the date; MultipleResultsFound exactly when there are two or more |
| Crud.Store.GetPoll | snack/bookclub/crud.py:94-95 | the poll row when the id exists, otherwise none |
| Crud.Store.EditPoll | snack/bookclub/crud.py:113-117 | changes only the date of an existing poll; an unknown id is NotFound with nothing changed |
| Crud.Store.DeletePoll | snack/bookclub/crud.py:120-122 | removes the poll together with its choices, the cascade of the foreign key, and nothing else |
| Crud.Store.CreateChoice | snack/bookclub/crud.py:126-130 | adds a zero-vote choice under the next id when poll and book exist; otherwise IntegrityError with nothing changed |
| Crud.Store.UpdateVote | snack/bookclub/crud.py:133-137 | adds the weight, 1 unless another is given, to that one choice and leaves every other choice unchanged; an unknown id is NotFound |
| Crud.Store.UpdateVoters | snack/bookclub/crud.py:140-145 | appends the user to that poll's voter list, without deduplicating, so the list grows by exactly one; an unknown id is NotFound |
| Crud.Store.GetVoters | snack/bookclub/crud.py:148-150 | the poll's voter list, or NotFound |
| Crud.Store.CreateBook | snack/bookclub/crud.py:154-158 | adds the book, with all flags clear, under the next id and changes no other book |
| Crud.Store.GetBook | snack/bookclub/crud.py:161-168 | by id when an id is given, even if a title is given too; otherwise by title, finding a book with that title exactly when one exists; with neither, ValueError "ID or title must be given" |
| Crud.Store.GetCurrentBook | snack/bookclub/crud.py:175-176 | fails with MultipleResultsFound exactly when two books are current; otherwise none exactly when no book is current, else the one current book |
| Crud.Store.DeleteBook | snack/bookclub/crud.py:179-181 | removes the book together with its choices, the cascade of the foreign key, and keeps vetoes and the at-most-one-current property |
| Crud.RetireSingle | snack/bookclub/crud.py:60-64 | retiring the one current book is the same as retiring every current book |
| Crud.RetireNone | snack/bookclub/crud.py:60-64 | with no current book, retiring changes nothing |
| Crud.RetiredHasNoCurrent | snack/bookclub/crud.py:60-64 | after retirement no book is current and no veto is lost |
| Crud.Crown | snack/bookclub/crud.py:76-77 | crowning a book in a catalog without a current book leaves exactly that book current |
| Crud.LeadersAreBooks | snack/bookclub/crud.py:68-72 | when every choice names an existing book, the join on `Book.id` keeps every leader |
| Crud.SecondaryError | snack/bookclub/crud.py:26-28 | two primary polls in one month make the secondary seeding fail with MultipleResultsFound |
| Tally.ApplyVetoMarks | snack/bookclub/crud.py:89-90 | vetoing sets `veto` on exactly the given books, changes no other field, and never clears a veto |
| Tally.LowScorersVetoed | snack/bookclub/crud.py:82-88 | every book with a choice of at most one vote in the poll ends up vetoed |
| Tally.LowMaximumEmptiesSecondary | snack/bookclub/crud.py:50-52 | when the maximum is at most 1, every leader is vetoed first, so the secondary poll gets no book |
| Tally.HighMaximumSparesLeaders | snack/bookclub/crud.py:50-52 | when the maximum is at least 2 and no book has two choices, no leader is vetoed, so the secondary poll gets the leaders that were eligible |
| Tally.SecondaryWithinLeaders | snack/bookclub/crud.py:32-41 | every choice of a seeded secondary poll is for an eligible book among the primary poll's leaders |
| Tally.WinnerHasMostVotes | snack/bookclub/crud.py:67-74 | the winner has a choice at the maximum, and every other book's choice in the poll has fewer votes |
| Tally.TieHasNoWinner | snack/bookclub/crud.py:68-74 | two different books tied at the top make `.one()` raise MultipleResultsFound |
| Tally.EmptyPollHasNoWinner | snack/bookclub/crud.py:67-74 | a poll without choices has no winner: NoResultFound |
| Tally.CrowningLeavesOneCurrent | snack/bookclub/crud.py:57-77 | retiring and then crowning leaves exactly the winner current |
| Tally.TwoBookPrimaryPoll | snack/bookclub/crud.py:44-54 | with votes X = 2 and Y = 1, Y is vetoed, X is the only leader, and X alone seeds the secondary poll |
| Tally.CrownSecondaryWinner | snack/bookclub/crud.py:57-77 | a secondary poll with one choice, for X with 3 votes, makes X current and the previous current book read |
| Ballot.ParseInt | snack/routers/bookclub.py:138-139 | `int` accepts exactly a digit string, optionally after one sign; only a text starting with `-` reads as negative |
| Ballot.ParseDigits | snack/routers/bookclub.py:138 | `int` of a digit string is the number the digits spell |
| Ballot.DigitsValueSnoc | snack/routers/bookclub.py:93 | appending a digit multiplies the value by ten and adds the digit |
| Ballot.TwoDigits | snack/routers/bookclub.py:93 | two digits spell ten times the first plus the second, which is below 100 |
| Ballot.RemoveHyphens | snack/routers/bookclub.py:93 | `replace("-", "")` leaves no hyphen and never lengthens the text |
| Ballot.RemoveHyphensAppend | snack/routers/bookclub.py:93 | removing hyphens distributes over concatenation |
| Ballot.RemoveHyphensNone | snack/routers/bookclub.py:93 | text without hyphens is unchanged |
| Ballot.FormDateOfYearMonth | snack/routers/bookclub.py:93 | a well-formed `YYYY-MM` becomes YYYY*100+MM, and year and month read back as the quotient and remainder by 100 |
| Ballot.FormDate | snack/routers/bookclub.py:93 | a converted month is never negative, since the hyphen that could make it so is removed first |
| Ballot.ParseWeight | snack/routers/bookclub.py:138-139 | a ticked checkbox (`"on"`) is weight 1, a digit string is the number it spells, and the value fails exactly when it is neither `"on"` nor an `int` literal |
| Ballot.ParseBallot | snack/routers/bookclub.py:135-140 | the form reads as no more votes than it has items, or fails |
| Ballot.DigitKeyed | snack/routers/bookclub.py:136-137 | every kept form item has a non-empty key of digits only |
| Ballot.ParseBallotIsFilterThenRead | snack/routers/bookclub.py:135-140 | the single pass over the form equals keeping the digit keys and then reading each value |
| Ballot.ParseBallotSkipsOtherKeys | snack/routers/bookclub.py:137 | a field whose key is not all digits, such as `user`, changes nothing wherever it stands |
| Ballot.CheckboxBallot | snack/routers/bookclub.py:139 | a ballot of `"on"` values reads as one weight-1 vote per digit key, in order |
| Ballot.MaxWeight | snack/routers/bookclub.py:144 | the maximum weight is the weight of some vote, and no vote exceeds it |
| Ballot.Invert | snack/routers/bookclub.py:143-147 | inversion keeps the length and the choice of every entry |
| Ballot.InvertsIffWeightAboveOne | snack/routers/bookclub.py:143-144 | inversion happens exactly when some weight exceeds 1 |
| Ballot.InvertThreeRanks | snack/routers/bookclub.py:145-147 | ranks 1, 2, 3 become weights 3, 2, 1 |
| Ballot.CheckboxesNotInverted | snack/routers/bookclub.py:143-144 | a ballot whose weights are all 1 is left as it is |
| Ballot.RankingInverts | snack/routers/bookclub.py:144 | a ranking of two or more entries is always inverted |
| Ballot.InvertedWeights | snack/routers/bookclub.py:145-147 | an inverted entry with weight v gets N+1-v, where N is the ballot length |
| Ballot.InvertKeepsRanking | snack/routers/bookclub.py:145-147 | ranks forming a permutation of 1..N give weights forming a permutation of 1..N |
| Ballot.InvertRankingTwice | snack/routers/bookclub.py:145-147 | inverting a ranking of two or more entries twice gives the ranking back |
| Ballot.BallotWeights | snack/routers/bookclub.py:135-147 | the weights exist exactly when the form reads; they keep the length and the choice of each vote, and a ballot without a weight above 1 keeps its weights |
| Ballot.ApplyVotes | snack/routers/bookclub.py:149-150 | the update loop keeps the set of choice ids and completes exactly when every voted id exists |
| Ballot.ApplyVotesAddsWeights | snack/routers/bookclub.py:149-150 | when every id exists, each choice gains exactly the total weight the ballot gives it and keeps its poll and book |
| Ballot.CheckboxBallotAddsOne | snack/routers/bookclub.py:139-150 | a checkbox-only ballot for different existing choices adds exactly 1 to each selected choice and nothing to the others |
| Ballot.ThreeSingleVotes | snack/routers/bookclub.py:149-150 | single votes X, Y, X on two fresh choices give X = 2 and Y = 1 |
| Router.OpenPolls | snack/routers/bookclub.py:24-32 | exactly the polls that are not finished |
| Router.Root | snack/routers/bookclub.py:21-48 | the page lists exactly the unfinished polls and the eligible books, and the current book, or fails like `get_current_book` when two books are current |
| Router.FinishingClosesPoll | snack/routers/bookclub.py:24-32 | completing a poll takes it, and only it, off the landing page |
| Router.NewPollListed | snack/routers/bookclub.py:24-32 | a newly opened poll is listed, and no other poll is hidden |
| Router.VetoedLeaveList | snack/routers/bookclub.py:34-39 | vetoed books leave the book list, and no other book does |
| Router.CrownedLeavesList | snack/routers/bookclub.py:34-39 | after retiring and crowning, the winner is off the list, the retired book stays off it, and nothing else changes |
| Router.NewBookListed | snack/routers/bookclub.py:34-39 | a newly added book is listed straight away |
| Router.AddBook | snack/routers/bookclub.py:65-77 | a book whose title is already in the catalog is not stored again; otherwise it is added under the next id |
| Router.CreatePollFromForm | snack/routers/bookclub.py:92-98 | a date `int()` rejects gives ValueError with nothing changed; an existing primary poll for the month, finished or not, means nothing is created (Skipped, or MultipleResultsFound when there are several); otherwise one primary poll is opened and seeded with the eligible books |
| Router.ShowPoll | snack/routers/bookclub.py:111-126 | an unknown poll is NotFound; a visitor whose `User` cookie is in the voter list is redirected home; anyone else gets the poll's date, its kind and exactly its choices |
| Router.ParseBallotFailureSticks | snack/routers/bookclub.py:139 | once a value fails `int`, the whole form fails |
| Router.CollectChoiceValues | snack/routers/bookclub.py:135-140 | the loop builds exactly the pairs `ParseBallot` reads, or fails exactly when it does |
| Router.CastVotes | snack/routers/bookclub.py:149-150 | the `update_vote` loop leaves the choices and the completion flag `ApplyVotes` describes |
| Router.SubmitPoll | snack/routers/bookclub.py:129-153 | a bad value changes nothing; otherwise the inverted weights are added, and the voter is appended, with no prior-vote check, when every choice existed; the earlier weights stay when a choice is missing |
| Schema.UsernameValid | snack/schema.py:30-36 | passes exactly a name of 2 to 20 characters that is not taken, unchanged; a bad length is reported before a taken name |
| Schema.EmailValid | snack/schema.py:38-46 | passes exactly a well-formed, unregistered address, unchanged; a malformed one is reported as not valid even when taken |
| Schema.PasswordValid | snack/schema.py:48-52 | passes exactly a password of at least 8 characters, unchanged |
| Schema.ConfirmValid | snack/schema.py:54-57 | a mismatch is reported exactly when a password passed and differs; otherwise the field becomes None |
| Schema.ValidateUserCreate | snack/schema.py:27-57 | an accepted form keeps the name, email and password with no confirmation value; a rejected one has between one and four errors |
| Schema.AcceptedIffAllRulesHold | snack/schema.py:27-57 | the form is accepted exactly when every rule holds; it then keeps the name, email and password with no confirmation value; a rejection names at least one field |
| Schema.MismatchOnlyAfterValidPassword | snack/schema.py:54-57 | "Passwords do not match" is reported exactly when the password is valid and the confirmation differs |
| Schema.MessagePerFailedRule | snack/schema.py:30-52 | each message of a rejected form appears exactly when its rule fails |
| Schema.NoFieldTwice | snack/schema.py:30-57 | no field is reported twice, so a rejection has at most four errors |
| LegacySchema.UsernameValid | schema.py:10-14 | passes exactly a name of 2 to 20 characters, unchanged |
| LegacySchema.EmailField | schema.py:5 | the email type's verdict: the address it returns, or "value is not a valid email address" |
| LegacySchema.ValidateUserCreate | schema.py:3-25 | the form is accepted exactly when the name has 2 to 20 characters, the email type accepts the address, the password has at least 8 characters and the confirmation equals it; it then keeps the name, the returned address and the password with no confirmation value; a rejection has between one and four errors |
| LegacySchema.UsernameAgreesOnEmptyRegistry | schema.py:10-14 | the old username rule is the new one when nobody is registered |
| LegacySchema.AgreesOnEmptyRegistry | schema.py:9-25 | when nobody is registered and both email checks accept the address, the email type returning it unchanged, the old form gives exactly the new one's result, messages included |
| LegacySchema.AgreesOnRejectedEmail | schema.py:5-25 | when nobody is registered and both email checks reject the address, both forms are rejected with the same errors in the same order, except that the email error has the email type's own message |
| LegacySchema.TakenNameStillPasses | schema.py:10-14 | a taken name, which the new form rejects, passes the old one |

## Left out

- HTTP, templates, cookies being set or deleted, redirects and the admin and scope checks are left out. Each route returns the data it would render or redirect with.
- Scraping and URL validation in the `create_book` route are left out: the scraped book record is a parameter of `Router.AddBook`.
- The display of a month through `strptime`/`strftime` is left out; months stay integers. This also leaves out the ValueError `strptime` raises for a stored month that is not a valid YYYYMM, such as 202413, which opening a poll for "2024-13" stores. `Router.Root` and `Router.ShowPoll` describe only polls whose months are valid: they do not report that error.
- `Router.Root`: returns sets of ids rather than the ordered lists of dictionaries the template gets.
- `Router.ShowPoll`: the ballot's choices are the ids of the poll's choices, with no book details. A missing poll is NotFound whether it is detected by `get_voters` or by the 404 wrapper.
- `Ballot.ParseInt` reads an optional sign followed by ASCII digits. Python's `int()` also accepts surrounding whitespace, underscores and non-ASCII digits, and `str.isdigit` accepts non-ASCII digits. Those are not modelled.
- The form is the list `FormData.items()` yields, one value per key; repeated keys are not modelled.
- `Router.SubmitPoll` does not check that a choice belongs to the poll being voted on, and neither does the source: a ballot may add weight to any existing choice.
- The email syntax check (`validate_email`, and the `EmailStr` type of the older form) is not modelled. Its verdict is a parameter.
- `LegacySchema.EmailField`: the normalisation `EmailStr` applies, and the fact that it skips the deliverability lookup `validate_email` makes by default, are outside the model; the normalised address is part of the parameter.
- The registry lookups are membership in sets of existing usernames and emails. They use `Result.scalar()`, which takes the first row and never raises on duplicates. A name or email that reaches the lookup is non-empty, so the truthiness test on the value found is the same as membership.
- The form fields without validators (`disabled`, `scopes`) are not modelled.
- The password and confirmation checks of `LegacySchema` reuse `Schema.PasswordValid` and `Schema.ConfirmValid`, because the older file states the same two rules in the same words.
- `Crud.Store.GetBook`: when several books share a title, the model returns one of them without saying which; the source returns the first row the database yields.
- `Crud.Store.UpdateVote`: `Choice.votes` is a 32-bit `Integer` column; a sum outside that range makes the commit fail with the earlier weights kept, and this is not modelled: votes are unbounded integers.
- `Crud.Store.CreatePoll`: `Poll.date` is a 32-bit `Integer` column; a month number outside that range makes the insert fail, and this is not modelled.
- `Crud.Store.CompletePoll`: `db.refresh` and session caching are not modelled, and neither are concurrent requests.
- `get_all_polls` and `get_all_books` are whole-table reads. They appear as the maps themselves.
- `get_poll_info`, the join of one poll's choices with their books, is called by no route and is not modelled; `Crud.ChoicesOf` gives the ids of one poll's choices.
- Ids are natural numbers handed out by per-table counters that start at 1. The database never reuses ids, and negative ids are not modelled.
- The scraper, authentication, mail, configuration, posts and the client-side scripts are not part of this model.
