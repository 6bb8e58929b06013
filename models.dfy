/** The three tables of the book club: polls, their choices and the book catalog.
    Row ids are not fields here: every table is a map from id to record. */
module Models {

  /** A poll for one month; `date` is an integer in YYYYMM form. */
  datatype Poll = Poll(date: int, primary: bool, usersVoted: seq<string>, finished: bool)

  /** One candidate book of one poll with its running vote count. */
  datatype Choice = Choice(pollId: nat, bookId: nat, votes: int)

  /** The descriptive columns of a book, as the scraper or an admin supplies them. */
  datatype BookData = BookData(title: string, author: string, pageCount: int, description: string, image: string)

  /** A catalog entry with its three status flags. */
  datatype Book = Book(data: BookData, current: bool, read: bool, veto: bool)

  /** A new poll row: not finished and nobody has voted. */
  function NewPoll(date: int, primary: bool): (p: Poll)
    ensures p.date == date && p.primary == primary
    ensures !p.finished && p.usersVoted == []
  {
    Poll(date, primary, [], false)
  }

  /** A new choice row starts with no votes. */
  function NewChoice(pollId: nat, bookId: nat): (c: Choice)
    ensures c.pollId == pollId && c.bookId == bookId && c.votes == 0
  {
    Choice(pollId, bookId, 0)
  }

  /** A new book row: neither current, read nor vetoed. */
  function NewBook(data: BookData): (b: Book)
    ensures b.data == data && !b.current && !b.read && !b.veto
  {
    Book(data, false, false, false)
  }

  /** A book may be put on a poll when it is neither read, vetoed nor being read. */
  predicate Eligible(b: Book) {
    !b.read && !b.veto && !b.current
  }
}
