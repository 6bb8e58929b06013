/** The form handling of the poll routes: the month a poll is opened for, and the ballot a
    voter submits, turned into vote weights and added to the choices. */
module Ballot {
  import opened Outcomes
  import opened Models

  // ---------------------------------------------------------------------------
  // Decimal strings

  predicate IsDigit(ch: char) {
    '0' <= ch <= '9'
  }

  /** Only decimal digits (possibly none). */
  predicate DigitsOnly(s: string) {
    forall i :: 0 <= i < |s| ==> IsDigit(s[i])
  }

  /** `str.isdigit()` on ASCII text: not empty and nothing but digits. */
  predicate IsDigitString(s: string) {
    |s| > 0 && DigitsOnly(s)
  }

  /** The value of one decimal digit. */
  function DigitValue(ch: char): (d: nat)
    requires IsDigit(ch)
    ensures d < 10
  {
    (ch as int) - ('0' as int)
  }

  /** The number a string of decimal digits spells, most significant digit first. */
  function DigitsValue(s: string): nat
    requires DigitsOnly(s)
  {
    if s == [] then 0 else DigitsValue(s[..|s| - 1]) * 10 + DigitValue(s[|s| - 1])
  }

  /** `int(s)` on an optional sign followed by decimal digits; None where Python raises ValueError.
      Only a leading `-` makes the number negative. */
  function ParseInt(s: string): (r: Option<int>)
    ensures r.Some? <==> IsDigitString(s) || (|s| > 1 && (s[0] == '+' || s[0] == '-') && IsDigitString(s[1..]))
    ensures r.Some? && r.value < 0 ==> s[0] == '-'
  {
    if |s| > 0 && (s[0] == '+' || s[0] == '-') && IsDigitString(s[1..]) then
      var n: int := DigitsValue(s[1..]);
      Some(if s[0] == '-' then -n else n)
    else if IsDigitString(s) then
      Some(DigitsValue(s))
    else
      None
  }

  /** Reading a string of digits through `int` gives its value. */
  lemma ParseDigits(s: string)
    requires IsDigitString(s)
    ensures ParseInt(s) == Some(DigitsValue(s))
  {
    assert IsDigit(s[0]);
  }

  /** Appending a digit shifts the value left by one decimal place. */
  lemma DigitsValueSnoc(a: string, ch: char)
    requires DigitsOnly(a) && IsDigit(ch)
    ensures DigitsOnly(a + [ch])
    ensures DigitsValue(a + [ch]) == DigitsValue(a) * 10 + DigitValue(ch)
  {
    DigitsOnlyAppend(a, [ch]);
    assert (a + [ch])[..|a|] == a;
  }

  lemma DigitsOnlyAppend(a: string, b: string)
    requires DigitsOnly(a) && DigitsOnly(b)
    ensures DigitsOnly(a + b)
  {
    var ab := a + b;
    forall i | 0 <= i < |ab| ensures IsDigit(ab[i]) {
      if i < |a| { assert ab[i] == a[i]; } else { assert ab[i] == b[i - |a|]; }
    }
  }

  /** Two digits spell ten times the first plus the second, a number below one hundred. */
  lemma TwoDigits(s: string)
    requires DigitsOnly(s) && |s| == 2
    ensures DigitsValue(s) == DigitValue(s[0]) * 10 + DigitValue(s[1])
    ensures DigitsValue(s) < 100
  {
    assert s[..1][..0] == [];
    assert DigitsValue(s[..1]) == DigitValue(s[0]);
    assert DigitsValue(s) == DigitValue(s[0]) * 10 + DigitValue(s[1]);
  }

  // ---------------------------------------------------------------------------
  // The poll month: `int(date.replace("-", ""))`

  /** `s.replace("-", "")`. */
  function RemoveHyphens(s: string): (r: string)
    ensures forall i :: 0 <= i < |r| ==> r[i] != '-'
    ensures |r| <= |s|
  {
    if s == [] then [] else (if s[0] == '-' then [] else [s[0]]) + RemoveHyphens(s[1..])
  }

  /** Removing hyphens from a concatenation removes them from each part. */
  lemma {:induction false} RemoveHyphensAppend(a: string, b: string)
    ensures RemoveHyphens(a + b) == RemoveHyphens(a) + RemoveHyphens(b)
    decreases |a|
  {
    if a == [] {
      assert a + b == b;
    } else {
      assert (a + b)[0] == a[0] && (a + b)[1..] == a[1..] + b;
      RemoveHyphensAppend(a[1..], b);
    }
  }

  /** A string without hyphens is left as it is. */
  lemma {:induction false} RemoveHyphensNone(s: string)
    requires forall i :: 0 <= i < |s| ==> s[i] != '-'
    ensures RemoveHyphens(s) == s
    decreases |s|
  {
    if s != [] {
      RemoveHyphensNone(s[1..]);
    }
  }

  /** The month a poll form submits, as the integer stored in `Poll.date`; None where `int` raises.
      Hyphens are gone before `int` sees the text, so a month is never negative. */
  function FormDate(date: string): (r: Option<int>)
    ensures r.Some? ==> r.value >= 0
  {
    ParseInt(RemoveHyphens(date))
  }

  /** A well-formed `YYYY-MM` becomes `YYYY * 100 + MM`, from which year and month read back. */
  lemma {:induction false} FormDateOfYearMonth(year: string, month: string)
    requires |year| == 4 && |month| == 2 && DigitsOnly(year) && DigitsOnly(month)
    ensures FormDate(year + "-" + month) == Some(DigitsValue(year) * 100 + DigitsValue(month))
    ensures FormDate(year + "-" + month).value / 100 == DigitsValue(year)
    ensures FormDate(year + "-" + month).value % 100 == DigitsValue(month)
  {
    RemoveHyphensAppend(year + "-", month);
    RemoveHyphensAppend(year, "-");
    RemoveHyphensNone(year);
    RemoveHyphensNone(month);
    assert RemoveHyphens("-") == [];
    assert RemoveHyphens(year + "-" + month) == year + month;
    assert month == [month[0]] + [month[1]];
    assert year + month == year + [month[0]] + [month[1]];
    DigitsValueSnoc(year, month[0]);
    DigitsValueSnoc(year + [month[0]], month[1]);
    TwoDigits(month);
    ParseDigits(year + month);
  }

  // ---------------------------------------------------------------------------
  // The ballot

  /** One `(choice_id, votes)` pair of `choice_values`. */
  datatype Vote = Vote(choiceId: nat, weight: int)

  /** A checked box (`"on"`) counts one; any other value goes through `int`. */
  function ParseWeight(v: string): (r: Option<int>)
    ensures v == "on" ==> r == Some(1)
    ensures IsDigitString(v) ==> r == Some(DigitsValue(v))
    ensures r.None? <==> v != "on" && ParseInt(v).None?
  {
    if v == "on" then Some(1) else ParseInt(v)
  }

  /** The loop over `formdata.items()`: every digit-only key becomes a vote for that choice
      id; other keys, `user` among them, are skipped; a value `int` rejects fails the request. */
  function ParseBallot(items: seq<(string, string)>): (r: Option<seq<Vote>>)
    ensures r.Some? ==> |r.value| <= |items|
    decreases |items|
  {
    if items == [] then Some([])
    else
      match ParseBallot(items[..|items| - 1])
      case None => None
      case Some(votes) =>
        var (k, v) := items[|items| - 1];
        if !IsDigitString(k) then Some(votes)
        else
          match ParseWeight(v)
          case None => None
          case Some(w) => Some(votes + [Vote(DigitsValue(k), w)])
  }

  /** The form items whose key is made of digits. */
  function DigitKeyed(items: seq<(string, string)>): (r: seq<(string, string)>)
    ensures forall j :: 0 <= j < |r| ==> IsDigitString(r[j].0)
  {
    if items == [] then []
    else if IsDigitString(items[0].0) then [items[0]] + DigitKeyed(items[1..])
    else DigitKeyed(items[1..])
  }

  /** Each digit-keyed item read as a vote, failing when any value does not parse. */
  function ReadVotes(items: seq<(string, string)>): Option<seq<Vote>>
    requires forall j :: 0 <= j < |items| ==> IsDigitString(items[j].0)
  {
    if items == [] then Some([])
    else
      assert forall j :: 0 <= j < |items[1..]| ==> items[1..][j] == items[j + 1];
      assert IsDigitString(items[0].0);
      match (ParseWeight(items[0].1), ReadVotes(items[1..]))
      case (Some(w), Some(rest)) => Some([Vote(DigitsValue(items[0].0), w)] + rest)
      case _ => None
  }

  lemma {:induction false} DigitKeyedSnoc(items: seq<(string, string)>, item: (string, string))
    ensures DigitKeyed(items + [item]) == DigitKeyed(items) + (if IsDigitString(item.0) then [item] else [])
    decreases |items|
  {
    if items == [] {
      assert [item][1..] == [];
    } else {
      assert (items + [item])[1..] == items[1..] + [item];
      DigitKeyedSnoc(items[1..], item);
    }
  }

  lemma {:induction false} ReadVotesSnoc(items: seq<(string, string)>, item: (string, string))
    requires forall j :: 0 <= j < |items| ==> IsDigitString(items[j].0)
    requires IsDigitString(item.0)
    ensures ReadVotes(items + [item]) ==
      match (ReadVotes(items), ParseWeight(item.1))
      case (Some(vs), Some(w)) => Some(vs + [Vote(DigitsValue(item.0), w)])
      case _ => None
    decreases |items|
  {
    if items == [] {
      assert [item][1..] == [];
      assert items + [item] == [item];
      assert ReadVotes([]) == Some([]);
      assert IsDigitString([item][0].0);
      match ParseWeight(item.1)
      case Some(w) =>
        assert [Vote(DigitsValue(item.0), w)] + [] == [] + [Vote(DigitsValue(item.0), w)];
      case None =>
    } else {
      assert (items + [item])[1..] == items[1..] + [item];
      assert (items + [item])[0] == items[0];
      ReadVotesSnoc(items[1..], item);
      match (ParseWeight(items[0].1), ReadVotes(items[1..]), ParseWeight(item.1))
      case (Some(w0), Some(rest), Some(w)) =>
        assert [Vote(DigitsValue(items[0].0), w0)] + (rest + [Vote(DigitsValue(item.0), w)])
            == [Vote(DigitsValue(items[0].0), w0)] + rest + [Vote(DigitsValue(item.0), w)];
      case _ =>
    }
  }

  /** The single pass of `submit_poll` is "keep the digit keys, then read each value". */
  lemma {:induction false} ParseBallotIsFilterThenRead(items: seq<(string, string)>)
    ensures ParseBallot(items) == ReadVotes(DigitKeyed(items))
    decreases |items|
  {
    if items != [] {
      var front, last := items[..|items| - 1], items[|items| - 1];
      assert items == front + [last];
      ParseBallotIsFilterThenRead(front);
      DigitKeyedSnoc(front, last);
      if IsDigitString(last.0) {
        ReadVotesSnoc(DigitKeyed(front), last);
      } else {
        assert DigitKeyed(items) == DigitKeyed(front) + [];
        assert DigitKeyed(front) + [] == DigitKeyed(front);
        assert ParseBallot(items) == ParseBallot(front);
      }
    }
  }

  /** A field whose key is not all digits, such as `user`, changes nothing wherever it stands. */
  lemma {:induction false} ParseBallotSkipsOtherKeys(before: seq<(string, string)>, item: (string, string), after: seq<(string, string)>)
    requires !IsDigitString(item.0)
    ensures ParseBallot(before + [item] + after) == ParseBallot(before + after)
    decreases |after|
  {
    if after == [] {
      assert before + [item] + after == before + [item];
      assert (before + [item])[..|before|] == before;
      assert before + after == before;
    } else {
      var front, last := after[..|after| - 1], after[|after| - 1];
      ParseBallotSkipsOtherKeys(before, item, front);
      assert (before + [item] + after)[..|before + [item] + after| - 1] == before + [item] + front;
      assert (before + after)[..|before + after| - 1] == before + front;
      assert (before + [item] + after)[|before + [item] + after| - 1] == last;
      assert (before + after)[|before + after| - 1] == last;
    }
  }

  /** A ballot of checked boxes only reads as one vote of weight one per digit key. */
  lemma {:induction false} CheckboxBallot(items: seq<(string, string)>)
    requires forall j :: 0 <= j < |items| && IsDigitString(items[j].0) ==> items[j].1 == "on"
    ensures ParseBallot(items).Some?
    ensures |ParseBallot(items).value| == |DigitKeyed(items)|
    ensures forall j :: 0 <= j < |ParseBallot(items).value| ==>
      ParseBallot(items).value[j] == Vote(DigitsValue(DigitKeyed(items)[j].0), 1)
    decreases |items|
  {
    if items != [] {
      var front, last := items[..|items| - 1], items[|items| - 1];
      assert items == front + [last];
      CheckboxBallot(front);
      DigitKeyedSnoc(front, last);
    }
  }

  // ---------------------------------------------------------------------------
  // Rank inversion

  /** `max(choice_values, key=lambda x: x[1])[1]`. */
  function MaxWeight(votes: seq<Vote>): (m: int)
    requires |votes| > 0
    ensures exists j :: 0 <= j < |votes| && votes[j].weight == m
    ensures forall j :: 0 <= j < |votes| ==> votes[j].weight <= m
  {
    if |votes| == 1 then votes[0].weight
    else
      var rest := MaxWeight(votes[1..]);
      assert forall j :: 1 <= j < |votes| ==> votes[j] == votes[1..][j - 1];
      if votes[0].weight >= rest then votes[0].weight else rest
  }

  /** Weights are inverted once some weight exceeds one: a ranked ballot rather than checkboxes. */
  predicate Inverts(votes: seq<Vote>) {
    |votes| > 0 && MaxWeight(votes) > 1
  }

  /** Each weight `v` of a ranked ballot of `N` entries becomes `N + 1 - v`; other ballots are kept. */
  function Invert(votes: seq<Vote>): (r: seq<Vote>)
    ensures |r| == |votes|
    ensures forall j :: 0 <= j < |r| ==> r[j].choiceId == votes[j].choiceId
  {
    if Inverts(votes) then
      seq(|votes|, j requires 0 <= j < |votes| => Vote(votes[j].choiceId, |votes| + 1 - votes[j].weight))
    else votes
  }

  /** The weights the ballot adds, or None when a value does not parse: one per parsed pair,
      for the same choice, inverted only for a ranked ballot. */
  function BallotWeights(items: seq<(string, string)>): (r: Option<seq<Vote>>)
    ensures r.Some? <==> ParseBallot(items).Some?
    ensures r.Some? ==> |r.value| == |ParseBallot(items).value|
    ensures r.Some? ==> forall j :: 0 <= j < |r.value| ==> r.value[j].choiceId == ParseBallot(items).value[j].choiceId
    ensures r.Some? && !Inverts(ParseBallot(items).value) ==> r.value == ParseBallot(items).value
  {
    match ParseBallot(items)
    case None => None
    case Some(votes) => Some(Invert(votes))
  }

  /** Inversion happens exactly when some weight is above one. */
  lemma InvertsIffWeightAboveOne(votes: seq<Vote>)
    ensures Inverts(votes) <==> exists j :: 0 <= j < |votes| && votes[j].weight > 1
  {
  }

  /** Ranks 1, 2, 3 become weights 3, 2, 1. */
  lemma InvertThreeRanks(a: nat, b: nat, c: nat)
    ensures Invert([Vote(a, 1), Vote(b, 2), Vote(c, 3)]) == [Vote(a, 3), Vote(b, 2), Vote(c, 1)]
  {
    var votes := [Vote(a, 1), Vote(b, 2), Vote(c, 3)];
    assert votes[1].weight > 1;
  }

  /** A ballot of checkboxes only keeps its weights. */
  lemma CheckboxesNotInverted(votes: seq<Vote>)
    requires forall j :: 0 <= j < |votes| ==> votes[j].weight == 1
    ensures Invert(votes) == votes
  {
  }

  /** The weights are the ranks 1..N, each once. */
  predicate IsRanking(votes: seq<Vote>) {
    && (forall j :: 0 <= j < |votes| ==> 1 <= votes[j].weight <= |votes|)
    && (forall i, j :: 0 <= i < j < |votes| ==> votes[i].weight != votes[j].weight)
  }

  /** A ranking of two or more entries is always inverted. */
  lemma {:induction false} RankingInverts(votes: seq<Vote>)
    requires IsRanking(votes) && |votes| >= 2
    ensures Inverts(votes)
  {
    if votes[0].weight <= 1 {
      assert votes[1].weight != votes[0].weight;
      assert votes[1].weight > 1;
    } else {
      assert votes[0].weight > 1;
    }
  }

  /** An inverted ballot gives each entry `N + 1` minus its weight. This only unfolds `Invert`;
      what the rule achieves is stated by `InvertKeepsRanking`, `InvertRankingTwice` and
      `InvertThreeRanks`. */
  lemma InvertedWeights(votes: seq<Vote>)
    requires Inverts(votes)
    ensures forall j :: 0 <= j < |votes| ==> Invert(votes)[j] == Vote(votes[j].choiceId, |votes| + 1 - votes[j].weight)
  {
  }

  /** Inverting a ranking of 1..N gives a ranking of 1..N. */
  lemma {:induction false} InvertKeepsRanking(votes: seq<Vote>)
    requires IsRanking(votes)
    ensures IsRanking(Invert(votes))
  {
  }

  /** Inverting a ranking of two or more entries twice gives the ranking back. */
  lemma {:induction false} InvertRankingTwice(votes: seq<Vote>)
    requires IsRanking(votes) && |votes| >= 2
    ensures Invert(Invert(votes)) == votes
  {
    RankingInverts(votes);
    var once := Invert(votes);
    InvertedWeights(votes);
    var k := if votes[0].weight < |votes| then 0 else 1;
    assert votes[0].weight != votes[1].weight;
    assert once[k].weight > 1;
    assert Inverts(once);
    InvertedWeights(once);
    assert forall j :: 0 <= j < |votes| ==> Invert(once)[j] == votes[j];
  }

  // ---------------------------------------------------------------------------
  // Adding the weights to the choices

  /** The `update_vote` loop: adds each weight to its choice in order, and stops at the first
      choice id that has no row (`complete` is then false, with the earlier votes kept). */
  function ApplyVotes(choices: map<nat, Choice>, votes: seq<Vote>): (result: (map<nat, Choice>, bool))
    ensures result.0.Keys == choices.Keys
    ensures result.1 <==> forall j :: 0 <= j < |votes| ==> votes[j].choiceId in choices
    decreases |votes|
  {
    if votes == [] then (choices, true)
    else if votes[0].choiceId !in choices then (choices, false)
    else
      var id := votes[0].choiceId;
      var rest := ApplyVotes(choices[id := choices[id].(votes := choices[id].votes + votes[0].weight)], votes[1..]);
      assert forall j :: 1 <= j < |votes| ==> votes[j] == votes[1..][j - 1];
      rest
  }

  /** The total weight a ballot gives choice `c`. */
  function WeightFor(votes: seq<Vote>, c: nat): int
    decreases |votes|
  {
    if votes == [] then 0 else (if votes[0].choiceId == c then votes[0].weight else 0) + WeightFor(votes[1..], c)
  }

  /** When every choice of the ballot exists, each choice gains exactly its total weight
      and keeps its poll and book. */
  lemma {:induction false} ApplyVotesAddsWeights(choices: map<nat, Choice>, votes: seq<Vote>)
    requires forall j :: 0 <= j < |votes| ==> votes[j].choiceId in choices
    ensures ApplyVotes(choices, votes).1
    ensures forall c :: c in choices ==>
      ApplyVotes(choices, votes).0[c] == choices[c].(votes := choices[c].votes + WeightFor(votes, c))
    decreases |votes|
  {
    if votes != [] {
      var id := votes[0].choiceId;
      var next := choices[id := choices[id].(votes := choices[id].votes + votes[0].weight)];
      assert forall j :: 0 <= j < |votes[1..]| ==> votes[1..][j] == votes[j + 1];
      ApplyVotesAddsWeights(next, votes[1..]);
    }
  }

  /** A choice id the ballot does not name gives no weight. */
  lemma {:induction false} WeightForAbsent(votes: seq<Vote>, c: nat)
    requires forall j :: 0 <= j < |votes| ==> votes[j].choiceId != c
    ensures WeightFor(votes, c) == 0
    decreases |votes|
  {
    if votes != [] {
      WeightForAbsent(votes[1..], c);
    }
  }

  /** A ballot that names each choice once with weight one gives its choices one vote each. */
  lemma {:induction false} WeightForDistinctOnes(votes: seq<Vote>, c: nat)
    requires forall j :: 0 <= j < |votes| ==> votes[j].weight == 1
    requires forall i, j :: 0 <= i < j < |votes| ==> votes[i].choiceId != votes[j].choiceId
    ensures WeightFor(votes, c) == if exists j :: 0 <= j < |votes| && votes[j].choiceId == c then 1 else 0
    decreases |votes|
  {
    if votes != [] {
      WeightForDistinctOnes(votes[1..], c);
      if votes[0].choiceId == c {
        WeightForAbsent(votes[1..], c);
      } else {
        assert (exists j :: 0 <= j < |votes| && votes[j].choiceId == c)
           <==> (exists j :: 0 <= j < |votes[1..]| && votes[1..][j].choiceId == c) by {
          forall j | 0 <= j < |votes| && votes[j].choiceId == c
            ensures 0 <= j - 1 < |votes[1..]| && votes[1..][j - 1].choiceId == c
          {
          }
          forall j | 0 <= j < |votes[1..]| && votes[1..][j].choiceId == c
            ensures 0 <= j + 1 < |votes| && votes[j + 1].choiceId == c
          {
          }
        }
      }
    }
  }

  /** A ballot of checked boxes, each for a different existing choice, adds exactly one vote to
      each selected choice and nothing to any other. */
  lemma CheckboxBallotAddsOne(choices: map<nat, Choice>, items: seq<(string, string)>)
    requires forall j :: 0 <= j < |items| && IsDigitString(items[j].0) ==> items[j].1 == "on"
    requires forall j :: 0 <= j < |DigitKeyed(items)| ==> DigitsValue(DigitKeyed(items)[j].0) in choices
    requires forall i, j :: 0 <= i < j < |DigitKeyed(items)| ==>
      DigitsValue(DigitKeyed(items)[i].0) != DigitsValue(DigitKeyed(items)[j].0)
    ensures BallotWeights(items).Some?
    ensures ApplyVotes(choices, BallotWeights(items).value).1
    ensures forall c :: c in choices ==>
      ApplyVotes(choices, BallotWeights(items).value).0[c]
        == choices[c].(votes := choices[c].votes
                        + if exists j :: 0 <= j < |DigitKeyed(items)| && DigitsValue(DigitKeyed(items)[j].0) == c then 1 else 0)
  {
    CheckboxBallot(items);
    var votes := ParseBallot(items).value;
    CheckboxesNotInverted(votes);
    assert BallotWeights(items) == Some(votes);
    ApplyVotesAddsWeights(choices, votes);
    forall c | c in choices
      ensures WeightFor(votes, c)
        == if exists j :: 0 <= j < |DigitKeyed(items)| && DigitsValue(DigitKeyed(items)[j].0) == c then 1 else 0
    {
      WeightForDistinctOnes(votes, c);
      assert (exists j :: 0 <= j < |votes| && votes[j].choiceId == c)
         <==> (exists j :: 0 <= j < |DigitKeyed(items)| && DigitsValue(DigitKeyed(items)[j].0) == c);
    }
  }

  /** Three single votes, two for choice 1 and one for choice 2, leave the fresh choices of a
      two-book poll at two votes and one. */
  lemma {:induction false} ThreeSingleVotes(p: nat, x: nat, y: nat)
    ensures ApplyVotes(map[1 := Choice(p, x, 0), 2 := Choice(p, y, 0)], [Vote(1, 1), Vote(2, 1), Vote(1, 1)])
         == (map[1 := Choice(p, x, 2), 2 := Choice(p, y, 1)], true)
  {
    var votes := [Vote(1, 1), Vote(2, 1), Vote(1, 1)];
    assert votes[1..] == [Vote(2, 1), Vote(1, 1)] && votes[1..][1..] == [Vote(1, 1)] && votes[1..][1..][1..] == [];
    var c0 := map[1 := Choice(p, x, 0), 2 := Choice(p, y, 0)];
    var c1 := c0[1 := Choice(p, x, 1)];
    var c2 := c1[2 := Choice(p, y, 1)];
    var c3 := c2[1 := Choice(p, x, 2)];
    assert ApplyVotes(c0, votes) == ApplyVotes(c1, votes[1..]);
    assert ApplyVotes(c1, votes[1..]) == ApplyVotes(c2, votes[1..][1..]);
    assert ApplyVotes(c2, votes[1..][1..]) == ApplyVotes(c3, []);
    assert c3 == map[1 := Choice(p, x, 2), 2 := Choice(p, y, 1)];
  }
}
