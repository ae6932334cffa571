/** The server's typing-test service: the speed and accuracy formulas, and
    the creation, update and deletion of stored tests together with the
    personal-best rule on the test's book. The database is a pair of maps
    from ids to records. */
module TypingTestService {
  import opened Base
  import opened Entities

  // ---------------------------------------------------------------------
  // Speed

  /** `CalculateWPMAsync`: characters / 5 per minute, that is
      12 * characters / seconds, rounded to the nearest integer with ties to
      even; 0 when no time has passed. */
  function CalculateWpm(text: string, timeInSeconds: int): (r: int)
    ensures timeInSeconds <= 0 ==> r == 0
    ensures r >= 0
    ensures timeInSeconds > 0 ==>
      var t := timeInSeconds;
      -t <= 2 * (12 * |text| - t * r) <= t
      && (2 * (12 * |text| - t * r) == t || 2 * (12 * |text| - t * r) == -t ==> r % 2 == 0)
  {
    if timeInSeconds <= 0 then 0
    else
      RoundHalfEvenNearest(12 * |text|, timeInSeconds);
      RoundHalfEven(12 * |text|, timeInSeconds)
  }

  /** More characters in the same time never give a lower speed. */
  lemma WpmMonotone(short: string, long: string, timeInSeconds: int)
    requires |short| <= |long| && timeInSeconds > 0
    ensures CalculateWpm(short, timeInSeconds) <= CalculateWpm(long, timeInSeconds)
  {
    RoundMonotone(12 * |short|, 12 * |long|, timeInSeconds);
  }

  /** Rounding half to even keeps the order of the numerators. */
  lemma RoundMonotone(n1: int, n2: int, d: int)
    requires n1 <= n2 && d > 0
    ensures RoundHalfEven(n1, d) <= RoundHalfEven(n2, d)
  {
    if n1 < n2 {
      RoundHalfEvenNearest(n1, d);
      RoundHalfEvenNearest(n2, d);
      NearestOrdered(n1, n2, d, RoundHalfEven(n1, d), RoundHalfEven(n2, d));
    }
  }

  /** Integers within one half of n1 / d and of a larger n2 / d are in
      order. */
  lemma NearestOrdered(n1: int, n2: int, d: int, a: int, b: int)
    requires n1 < n2 && d > 0
    requires -d <= 2 * (n1 - d * a) && 2 * (n2 - d * b) <= d
    ensures a <= b
  {
    if a > b {
      MultiplyMonotone(d, b + 1, a);
    }
  }

  lemma MultiplyMonotone(t: int, x: int, y: int)
    requires t > 0 && x <= y
    ensures t * x <= t * y
  {
  }

  // ---------------------------------------------------------------------
  // Accuracy

  /** Number of positions below n where both strings have the same
      character. */
  function MatchesBelow(original: string, typed: string, n: nat): (r: nat)
    ensures r <= n
  {
    if n == 0 then 0
    else
      var i := n - 1;
      MatchesBelow(original, typed, i)
      + (if i < |original| && i < |typed| && original[i] == typed[i] then 1 else 0)
  }

  /** `CalculateAccuracyAsync` as a value: 0 when either string is empty,
      otherwise the share of the original's positions that were typed
      correctly, as a percentage. */
  function Accuracy(original: string, typed: string): (r: real)
    ensures original == [] || typed == [] ==> r == 0.0
    ensures r >= 0.0
  {
    if original == [] || typed == [] then 0.0
    else MatchesBelow(original, typed, Max(|original|, |typed|)) as real / |original| as real * 100.0
  }

  /** Positions past the shorter string never match. */
  lemma {:induction false} MatchesBeyond(original: string, typed: string, n: nat)
    requires n >= Min(|original|, |typed|)
    ensures MatchesBelow(original, typed, n) == MatchesBelow(original, typed, Min(|original|, |typed|))
  {
    if n > Min(|original|, |typed|) {
      MatchesBeyond(original, typed, n - 1);
    }
  }

  /** Two typed texts that agree below n match alike below n. */
  lemma {:induction false} MatchesAgree(original: string, t1: string, t2: string, n: nat)
    requires n <= |t1| && n <= |t2| && t1[..n] == t2[..n]
    ensures MatchesBelow(original, t1, n) == MatchesBelow(original, t2, n)
  {
    if n > 0 {
      assert t1[n - 1] == t1[..n][n - 1] == t2[..n][n - 1] == t2[n - 1];
      assert t1[..n - 1] == t1[..n][..n - 1];
      assert t2[..n - 1] == t2[..n][..n - 1];
      MatchesAgree(original, t1, t2, n - 1);
    }
  }

  /** The accuracy is a percentage: between 0 and 100. */
  lemma AccuracyInRange(original: string, typed: string)
    ensures 0.0 <= Accuracy(original, typed) <= 100.0
  {
    if original != [] && typed != [] {
      var m := Max(|original|, |typed|);
      MatchesBeyond(original, typed, m);
      var c := MatchesBelow(original, typed, m);
      assert c <= |original|;
      assert c as real / |original| as real <= 1.0;
    }
  }

  /** Characters typed past the end of the original change nothing. */
  lemma AccuracyIgnoresExtra(original: string, typed: string)
    requires |typed| > |original| > 0
    ensures Accuracy(original, typed) == Accuracy(original, typed[..|original|])
  {
    var n := |original|;
    MatchesBeyond(original, typed, |typed|);
    MatchesBeyond(original, typed[..n], n);
    assert typed[..n][..n] == typed[..n];
    MatchesAgree(original, typed, typed[..n], n);
  }

  /** Typing the original exactly scores 100. */
  lemma {:induction false} AccuracyOfExactCopy(original: string)
    requires original != []
    ensures Accuracy(original, original) == 100.0
  {
    AllMatch(original, |original|);
  }

  lemma {:induction false} AllMatch(s: string, n: nat)
    requires n <= |s|
    ensures MatchesBelow(s, s, n) == n
  {
    if n > 0 {
      AllMatch(s, n - 1);
    }
  }

  /** `CalculateAccuracyAsync`: the loop over every position of the longer
      string, counting the positions inside both where the characters
      agree. */
  method CalculateAccuracy(originalText: string, typedText: string) returns (r: real)
    ensures r == Accuracy(originalText, typedText)
  {
    if originalText == [] || typedText == [] {
      return 0.0;
    }
    var maxLength := Max(|originalText|, |typedText|);
    var correctChars := 0;
    var i := 0;
    while i < maxLength
      invariant 0 <= i <= maxLength
      invariant correctChars == MatchesBelow(originalText, typedText, i)
    {
      if i < |originalText| && i < |typedText| {
        if originalText[i] == typedText[i] {
          correctChars := correctChars + 1;
        }
      }
      i := i + 1;
    }
    r := correctChars as real / |originalText| as real * 100.0;
  }

  // ---------------------------------------------------------------------
  // Personal best

  /** `UpdatePersonalBestAsync` on the book table: the book's personal best
      becomes `wpm` when the book exists, belongs to the user and `wpm`
      beats it; every other record is untouched. */
  function WithPersonalBest(books: map<int, Book>, userId: int, bookId: int, wpm: int): (r: map<int, Book>)
    ensures r.Keys == books.Keys
    ensures forall id :: id in books ==> r[id].personalBest >= books[id].personalBest
    ensures forall id :: id in books && id != bookId ==> r[id] == books[id]
    ensures bookId in books ==>
      var b := books[bookId];
      if b.userId == Some(userId) && wpm > b.personalBest
      then r[bookId] == b.(personalBest := wpm)
      else r[bookId] == b
  {
    if bookId in books && books[bookId].userId == Some(userId) && wpm > books[bookId].personalBest
    then books[bookId := books[bookId].(personalBest := wpm)]
    else books
  }

  // ---------------------------------------------------------------------
  // Updating a stored test

  /** The fields `UpdateTestAsync` copies from the request: speed, accuracy,
      errors, time and characters typed. */
  function WithScores(existing: TypingTest, request: TypingTest): (r: TypingTest)
    ensures r.wpm == request.wpm && r.accuracy == request.accuracy && r.errors == request.errors
    ensures r.time == request.time && r.charactersTyped == request.charactersTyped
    ensures r.id == existing.id && r.bookId == existing.bookId && r.userId == existing.userId
    ensures r.date == existing.date
  {
    existing.(wpm := request.wpm, accuracy := request.accuracy, errors := request.errors,
              time := request.time, charactersTyped := request.charactersTyped)
  }

  /** The error `UpdateTestAsync` and `DeleteTestAsync` throw for an
      unknown id. */
  const TestNotFound := "Test not found"

  class TypingTestStore {
    var tests: map<int, TypingTest>
    var books: map<int, Book>
    /** The identity the database gives the next inserted test. */
    var nextId: int

    /** Every stored test sits under its own id, and ids below `nextId`
        are the ones already handed out. */
    predicate Valid()
      reads this
    {
      && 1 <= nextId
      && forall id :: id in tests ==> tests[id].id == id && id < nextId
    }

    constructor(books: map<int, Book>)
      ensures this.books == books && tests == map[] && Valid()
    {
      this.books := books;
      tests := map[];
      nextId := 1;
    }

    /** `CreateTestAsync`: the test is stored as a new record, dated `now`,
        under an id the database hands out; then the personal-best rule runs
        for its user, book and speed. */
    method CreateTest(test: TypingTest, now: int) returns (created: TypingTest)
      requires Valid()
      modifies this
      ensures Valid()
      ensures created == test.(id := old(nextId), date := now)
      ensures created.id !in old(tests)
      ensures tests == old(tests)[created.id := created]
      ensures books == WithPersonalBest(old(books), test.userId, test.bookId, test.wpm)
    {
      created := test.(id := 0, date := now);
      created := created.(id := nextId);
      tests := tests[nextId := created];
      nextId := nextId + 1;
      UpdatePersonalBest(test.userId, test.bookId, test.wpm);
    }

    /** `UpdatePersonalBestAsync`. */
    method UpdatePersonalBest(userId: int, bookId: int, wpm: int)
      modifies this`books
      ensures books == WithPersonalBest(old(books), userId, bookId, wpm)
    {
      if bookId in books && books[bookId].userId == Some(userId) && wpm > books[bookId].personalBest {
        var book := books[bookId];
        books := books[bookId := book.(personalBest := wpm)];
      }
    }

    /** `UpdateTestAsync`: an unknown id fails; otherwise the stored test
        takes the request's scores and keeps its book, user and date. */
    method UpdateTest(id: int, test: TypingTest) returns (r: Result<TypingTest, string>)
      requires Valid()
      modifies this`tests
      ensures Valid()
      ensures id !in old(tests) ==> r == Failure(TestNotFound) && tests == old(tests)
      ensures id in old(tests) ==>
        && r == Success(WithScores(old(tests)[id], test))
        && tests == old(tests)[id := r.value]
    {
      if id !in tests {
        return Failure(TestNotFound);
      }
      var existing := tests[id];
      existing := WithScores(existing, test);
      tests := tests[id := existing];
      r := Success(existing);
    }

    /** `DeleteTestAsync`: an unknown id fails; otherwise exactly that test
        is removed. */
    method DeleteTest(id: int) returns (r: Result<(), string>)
      requires Valid()
      modifies this`tests
      ensures Valid()
      ensures id !in old(tests) ==> r == Failure(TestNotFound) && tests == old(tests)
      ensures id in old(tests) ==> r == Success(()) && tests == old(tests) - {id}
    {
      if id !in tests {
        return Failure(TestNotFound);
      }
      tests := tests - {id};
      r := Success(());
    }
  }
}
