/**
 * The quiz records and the pure operations `quizManagement` applies to its
 * `quizzes` array: lookup by time (`find`/`findIndex`), removal of one index
 * (`splice`), removal by id (`filter`), and re-sorting by time (`sort`).
 */
module QuizStore {
  import opened Wrappers
  import opened JsText

  /** One stored quiz, as `addQuiz` builds it and `saveQuizzes` persists it. */
  datatype Quiz = Quiz(id: int, time: int, question: string, options: seq<string>, correctAnswer: int)

  /** Every quiz carries exactly four answer options, labelled A to D. */
  const OptionCount := 4

  /** The record shape `addQuiz` guarantees for every quiz it creates. */
  predicate WellFormed(q: Quiz)
  {
    q.time >= 0 && q.question != [] &&
    |q.options| == OptionCount &&
    (forall i :: 0 <= i < |q.options| ==> q.options[i] != []) &&
    0 <= q.correctAnswer < OptionCount
  }

  predicate Sorted(qs: seq<Quiz>)
  {
    forall i, j :: 0 <= i < j < |qs| ==> qs[i].time <= qs[j].time
  }

  predicate UniqueTimes(qs: seq<Quiz>)
  {
    forall i, j :: 0 <= i < j < |qs| ==> qs[i].time != qs[j].time
  }

  /** What holds of `quizzes` between handler calls: well-formed, ascending by time, one quiz per second. */
  predicate StoreInvariant(qs: seq<Quiz>)
  {
    (forall q :: q in qs ==> WellFormed(q)) && Sorted(qs) && UniqueTimes(qs)
  }

  // ---------------------------------------------------------------- lookup

  /** `findIndex(q => q.time === t)`, with `None` for the `-1` it returns when nothing matches. */
  function FindIndexByTime(qs: seq<Quiz>, t: int): (r: Option<nat>)
    ensures r.Some? ==> r.value < |qs| && qs[r.value].time == t
    ensures r.Some? ==> forall j :: 0 <= j < r.value ==> qs[j].time != t
    ensures r.None? ==> forall j :: 0 <= j < |qs| ==> qs[j].time != t
  {
    if qs == [] then None
    else if qs[0].time == t then Some(0)
    else match FindIndexByTime(qs[1..], t)
      case None => None
      case Some(i) => Some(i + 1)
  }

  /** `find(q => q.time === t)`: the first quiz scheduled at second `t`, if any. */
  function FindByTime(qs: seq<Quiz>, t: int): (r: Option<Quiz>)
    ensures r.Some? ==> r.value in qs && r.value.time == t
    ensures r.None? <==> forall q :: q in qs ==> q.time != t
  {
    match FindIndexByTime(qs, t)
    case None => None
    case Some(i) => Some(qs[i])
  }

  /** With one quiz per second, looking a stored quiz up by its time finds that quiz. */
  lemma FindByTimeUnique(qs: seq<Quiz>, q: Quiz)
    requires UniqueTimes(qs) && q in qs
    ensures FindByTime(qs, q.time) == Some(q)
  {
    var k :| 0 <= k < |qs| && qs[k] == q;
  }

  // ---------------------------------------------------------------- ordering helpers

  lemma SortedCons(h: Quiz, t: seq<Quiz>)
    requires Sorted(t)
    requires forall x :: x in t ==> h.time <= x.time
    ensures Sorted([h] + t)
  {
    forall i, j | 0 <= i < j < |[h] + t| ensures ([h] + t)[i].time <= ([h] + t)[j].time {
      assert ([h] + t)[j] == t[j - 1];
      if i > 0 { assert ([h] + t)[i] == t[i - 1]; }
    }
  }

  lemma UniqueCons(h: Quiz, t: seq<Quiz>)
    requires UniqueTimes(t)
    requires forall x :: x in t ==> h.time != x.time
    ensures UniqueTimes([h] + t)
  {
    forall i, j | 0 <= i < j < |[h] + t| ensures ([h] + t)[i].time != ([h] + t)[j].time {
      assert ([h] + t)[j] == t[j - 1];
      if i > 0 { assert ([h] + t)[i] == t[i - 1]; }
    }
  }

  lemma InvariantTail(s: seq<Quiz>)
    requires s != []
    ensures Sorted(s) ==> Sorted(s[1..]) && forall x :: x in s[1..] ==> s[0].time <= x.time
    ensures UniqueTimes(s) ==> UniqueTimes(s[1..]) && forall x :: x in s[1..] ==> s[0].time != x.time
  {
    forall x | x in s[1..] ensures exists j :: 1 <= j < |s| && s[j] == x {
      var k :| 0 <= k < |s[1..]| && s[1..][k] == x;
      assert s[k + 1] == x;
    }
  }

  // ---------------------------------------------------------------- splice

  /** `splice(i, 1)`: the store without the record at index `i`. */
  function RemoveAt(qs: seq<Quiz>, i: nat): (r: seq<Quiz>)
    requires i < |qs|
    ensures |r| == |qs| - 1
  {
    qs[..i] + qs[i + 1..]
  }

  lemma RemoveAtSpec(qs: seq<Quiz>, i: nat)
    requires i < |qs|
    ensures multiset(RemoveAt(qs, i)) == multiset(qs) - multiset{qs[i]}
    ensures forall k :: 0 <= k < |RemoveAt(qs, i)| ==> RemoveAt(qs, i)[k] == if k < i then qs[k] else qs[k + 1]
  {
    var r := RemoveAt(qs, i);
    assert qs == qs[..i] + ([qs[i]] + qs[i + 1..]);
    assert multiset(qs) == multiset(qs[..i]) + multiset{qs[i]} + multiset(qs[i + 1..]);
    assert multiset(r) == multiset(qs[..i]) + multiset(qs[i + 1..]);
  }

  lemma RemoveAtOrdered(qs: seq<Quiz>, i: nat)
    requires i < |qs|
    ensures Sorted(qs) ==> Sorted(RemoveAt(qs, i))
    ensures UniqueTimes(qs) ==> UniqueTimes(RemoveAt(qs, i))
  {
    var r := RemoveAt(qs, i);
    RemoveAtSpec(qs, i);
    forall a, b | 0 <= a < b < |r|
      ensures exists a', b' :: 0 <= a' < b' < |qs| && r[a] == qs[a'] && r[b] == qs[b']
    {
      var a', b' := if a < i then a else a + 1, if b < i then b else b + 1;
      assert r[a] == qs[a'] && r[b] == qs[b'];
    }
  }

  /** Removing the quiz at one index keeps the invariant and leaves no quiz at that quiz's second. */
  lemma RemoveAtKeepsInvariant(qs: seq<Quiz>, i: nat)
    requires StoreInvariant(qs) && i < |qs|
    ensures StoreInvariant(RemoveAt(qs, i))
    ensures forall x :: x in RemoveAt(qs, i) <==> x in qs && x.time != qs[i].time
  {
    var r := RemoveAt(qs, i);
    RemoveAtOrdered(qs, i);
    RemoveAtSpec(qs, i);
    forall x | x in r ensures x in qs && x.time != qs[i].time {
      var k :| 0 <= k < |r| && r[k] == x;
      var k' := if k < i then k else k + 1;
      assert x == qs[k'] && k' != i;
    }
    forall x | x in qs && x.time != qs[i].time ensures x in r {
      assert x in multiset(qs) && x != qs[i];
      assert x in multiset(r);
    }
  }

  /**
   * The replacement step of `addQuiz`: drop the quiz already scheduled at
   * second `t`, if there is one.
   */
  function WithoutTime(qs: seq<Quiz>, t: int): (r: seq<Quiz>)
    requires StoreInvariant(qs)
    ensures StoreInvariant(r)
    ensures forall x :: x in r <==> x in qs && x.time != t
    ensures |r| == if FindByTime(qs, t).Some? then |qs| - 1 else |qs|
  {
    match FindIndexByTime(qs, t)
    case None => qs
    case Some(i) =>
      RemoveAtKeepsInvariant(qs, i);
      RemoveAt(qs, i)
  }

  // ---------------------------------------------------------------- filter

  /** `filter(q => q.id !== id)`: every record except those carrying `id`, in their original order. */
  function FilterOutId(qs: seq<Quiz>, id: int): (r: seq<Quiz>)
    ensures forall x :: x in r <==> x in qs && x.id != id
    ensures |r| <= |qs|
  {
    if qs == [] then []
    else
      assert qs == [qs[0]] + qs[1..];
      (if qs[0].id == id then [] else [qs[0]]) + FilterOutId(qs[1..], id)
  }

  /** Filtering distributes over concatenation: the kept records stay in their relative order. */
  lemma {:induction false} FilterOutIdConcat(a: seq<Quiz>, b: seq<Quiz>, id: int)
    ensures FilterOutId(a + b, id) == FilterOutId(a, id) + FilterOutId(b, id)
  {
    if a != [] {
      var h := if a[0].id == id then [] else [a[0]];
      assert (a + b)[0] == a[0];
      assert (a + b)[1..] == a[1..] + b;
      assert FilterOutId(a + b, id) == h + FilterOutId(a[1..] + b, id);
      assert FilterOutId(a, id) == h + FilterOutId(a[1..], id);
      FilterOutIdConcat(a[1..], b, id);
    } else {
      assert a + b == b;
    }
  }

  /** Two records that survive the filter keep the order they had in the store. */
  lemma FilterOutIdKeepsOrder(qs: seq<Quiz>, id: int, i: nat, j: nat)
    requires i < j < |qs| && qs[i].id != id && qs[j].id != id
    ensures exists a, b ::
              0 <= a < b < |FilterOutId(qs, id)| &&
              FilterOutId(qs, id)[a] == qs[i] && FilterOutId(qs, id)[b] == qs[j]
  {
    var front, back := qs[..j], qs[j..];
    var f, g := FilterOutId(front, id), FilterOutId(back, id);
    var r := FilterOutId(qs, id);
    assert r == f + g by {
      assert qs == front + back;
      FilterOutIdConcat(front, back, id);
    }
    assert qs[i] in f by {
      assert front[i] == qs[i];
    }
    var a :| 0 <= a < |f| && f[a] == qs[i];
    assert g != [] && g[0] == qs[j] by {
      assert back == [qs[j]] + back[1..];
    }
    var b := |f|;
    assert 0 <= a < b < |r| && r[a] == qs[i] && r[b] == qs[j];
  }

  /** Deleting an id nobody carries leaves the store exactly as it was. */
  lemma {:induction false} FilterOutIdAbsent(qs: seq<Quiz>, id: int)
    requires forall x :: x in qs ==> x.id != id
    ensures FilterOutId(qs, id) == qs
  {
    if qs != [] {
      assert qs == [qs[0]] + qs[1..];
      FilterOutIdAbsent(qs[1..], id);
    }
  }

  /** Deleting the same id twice is deleting it once. */
  lemma FilterOutIdIdempotent(qs: seq<Quiz>, id: int)
    ensures FilterOutId(FilterOutId(qs, id), id) == FilterOutId(qs, id)
  {
    FilterOutIdAbsent(FilterOutId(qs, id), id);
  }

  /** Deletion keeps the store ascending by time with one quiz per second. */
  lemma {:induction false} FilterOutIdKeepsInvariant(qs: seq<Quiz>, id: int)
    requires StoreInvariant(qs)
    ensures StoreInvariant(FilterOutId(qs, id))
  {
    if qs != [] {
      InvariantTail(qs);
      var rest := FilterOutId(qs[1..], id);
      FilterOutIdKeepsInvariant(qs[1..], id);
      if qs[0].id != id {
        SortedCons(qs[0], rest);
        UniqueCons(qs[0], rest);
      }
    }
  }

  // ---------------------------------------------------------------- sort

  /**
   * Places `q` after the leading records whose time is not later than its
   * own: one step of an insertion sort on `time`.
   */
  function InsertByTime(q: Quiz, s: seq<Quiz>): (r: seq<Quiz>)
    ensures multiset(r) == multiset(s) + multiset{q}
  {
    if s == [] || q.time < s[0].time then [q] + s
    else
      assert s == [s[0]] + s[1..];
      [s[0]] + InsertByTime(q, s[1..])
  }

  /**
   * `sort((a, b) => a.time - b.time)`, written as an insertion sort. On a
   * store with one quiz per second every correct sort gives this same array
   * (`SortedUniqueDetermined`).
   */
  function SortByTime(s: seq<Quiz>): (r: seq<Quiz>)
    ensures multiset(r) == multiset(s)
  {
    if s == [] then []
    else
      assert s == s[..|s| - 1] + [s[|s| - 1]];
      InsertByTime(s[|s| - 1], SortByTime(s[..|s| - 1]))
  }

  lemma {:induction false} InsertByTimeSorted(q: Quiz, s: seq<Quiz>)
    requires Sorted(s)
    ensures Sorted(InsertByTime(q, s))
  {
    if s == [] || q.time < s[0].time {
      forall x | x in s ensures q.time <= x.time {
        var k :| 0 <= k < |s| && s[k] == x;
        assert s[0].time <= s[k].time;
      }
      SortedCons(q, s);
    } else {
      InvariantTail(s);
      var rest := InsertByTime(q, s[1..]);
      InsertByTimeSorted(q, s[1..]);
      forall x | x in rest ensures s[0].time <= x.time {
        assert x in multiset(rest);
      }
      SortedCons(s[0], rest);
    }
  }

  lemma {:induction false} InsertByTimeUnique(q: Quiz, s: seq<Quiz>)
    requires UniqueTimes(s)
    requires forall x :: x in s ==> x.time != q.time
    ensures UniqueTimes(InsertByTime(q, s))
  {
    if s == [] || q.time < s[0].time {
      UniqueCons(q, s);
    } else {
      InvariantTail(s);
      var rest := InsertByTime(q, s[1..]);
      InsertByTimeUnique(q, s[1..]);
      forall x | x in rest ensures s[0].time != x.time {
        assert x in multiset(rest);
      }
      UniqueCons(s[0], rest);
    }
  }

  lemma {:induction false} InsertByTimeAtEnd(q: Quiz, s: seq<Quiz>)
    requires forall x :: x in s ==> x.time <= q.time
    ensures InsertByTime(q, s) == s + [q]
  {
    if s != [] {
      assert s[0] in s;
      assert forall x :: x in s[1..] ==> x in s;
      InsertByTimeAtEnd(q, s[1..]);
    }
  }

  /** The sort always yields a list ascending by time. */
  lemma {:induction false} SortByTimeSorted(s: seq<Quiz>)
    ensures Sorted(SortByTime(s))
  {
    if s != [] {
      SortByTimeSorted(s[..|s| - 1]);
      InsertByTimeSorted(s[|s| - 1], SortByTime(s[..|s| - 1]));
    }
  }

  /** Sorting a list that is already ascending by time changes nothing. */
  lemma {:induction false} SortByTimeOfSorted(s: seq<Quiz>)
    requires Sorted(s)
    ensures SortByTime(s) == s
  {
    if s != [] {
      var init, last := s[..|s| - 1], s[|s| - 1];
      assert Sorted(init);
      SortByTimeOfSorted(init);
      forall x | x in init ensures x.time <= last.time {
        var k :| 0 <= k < |init| && init[k] == x;
        assert s[k] == x;
      }
      InsertByTimeAtEnd(last, init);
      assert init + [last] == s;
    }
  }

  /** In a list ascending by time with one quiz per second, the head is strictly the earliest record. */
  lemma HeadIsEarliest(s: seq<Quiz>, x: Quiz)
    requires Sorted(s) && UniqueTimes(s) && x in s && x != s[0]
    ensures s[0].time < x.time
  {
    var k :| 0 <= k < |s| && s[k] == x;
    assert 0 < k;
  }

  /**
   * Any two lists that are ascending by time, have one quiz per second and
   * hold the same records are the same list: which sort algorithm the
   * browser runs makes no difference to the store.
   */
  lemma {:induction false} SortedUniqueDetermined(a: seq<Quiz>, b: seq<Quiz>)
    requires Sorted(a) && UniqueTimes(a) && Sorted(b) && UniqueTimes(b)
    requires multiset(a) == multiset(b)
    ensures a == b
  {
    if a == [] {
      assert |b| == |multiset(b)| == 0;
    } else {
      SameHead(a, b);
      InvariantTail(a);
      InvariantTail(b);
      assert multiset(a[1..]) == multiset(b[1..]) by {
        assert a == [a[0]] + a[1..] && b == [b[0]] + b[1..];
        assert multiset(a[1..]) == multiset(a) - multiset{a[0]};
        assert multiset(b[1..]) == multiset(b) - multiset{b[0]};
      }
      SortedUniqueDetermined(a[1..], b[1..]);
      assert a == [a[0]] + a[1..] && b == [b[0]] + b[1..];
    }
  }

  /** Two such lists holding the same records start with the same one: the earliest. */
  lemma SameHead(a: seq<Quiz>, b: seq<Quiz>)
    requires Sorted(a) && UniqueTimes(a) && Sorted(b) && UniqueTimes(b)
    requires multiset(a) == multiset(b) && a != []
    ensures b != [] && a[0] == b[0]
  {
    assert a[0] in multiset(b);
    assert b != [];
    assert b[0] in multiset(a);
    if a[0] != b[0] {
      HeadIsEarliest(b, a[0]);
      HeadIsEarliest(a, b[0]);
      assert false;
    }
  }

  // ---------------------------------------------------------------- addQuiz

  /** The checks `addQuiz` makes before touching the store: a non-negative time, a non-blank question, no blank option. */
  predicate InputAccepted(time: Option<int>, questionInput: string, optionInputs: seq<string>)
  {
    time.Some? && time.value >= 0 &&
    Trim(questionInput) != [] &&
    forall i :: 0 <= i < |optionInputs| ==> Trim(optionInputs[i]) != []
  }

  /**
   * `addQuiz` turns the form away exactly when the time is NaN or negative,
   * the question is blank, or some option is blank (white space only counts
   * as blank).
   */
  lemma InputRejectedExactly(time: Option<int>, questionInput: string, optionInputs: seq<string>)
    ensures !InputAccepted(time, questionInput, optionInputs) <==>
      time.None? || time.value < 0 || AllWhitespace(questionInput) ||
      exists i :: 0 <= i < |optionInputs| && AllWhitespace(optionInputs[i])
  {
  }

  /** The four option inputs, each trimmed, in form order. */
  function TrimOptions(optionInputs: seq<string>): (r: seq<string>)
    requires |optionInputs| == OptionCount
    ensures |r| == OptionCount
    ensures forall i :: 0 <= i < OptionCount ==> r[i] == Trim(optionInputs[i])
  {
    [Trim(optionInputs[0]), Trim(optionInputs[1]), Trim(optionInputs[2]), Trim(optionInputs[3])]
  }

  /** The record `addQuiz` creates from accepted inputs. */
  function QuizFromInput(id: int, time: Option<int>, questionInput: string, optionInputs: seq<string>, correctAnswer: int): (q: Quiz)
    requires |optionInputs| == OptionCount && 0 <= correctAnswer < OptionCount
    requires InputAccepted(time, questionInput, optionInputs)
    ensures WellFormed(q)
    ensures q.id == id && q.time == time.value && q.correctAnswer == correctAnswer
    ensures q.question == Trim(questionInput)
    ensures |q.options| == OptionCount && forall i :: 0 <= i < OptionCount ==> q.options[i] == Trim(optionInputs[i])
  {
    var options := TrimOptions(optionInputs);
    assert forall i :: 0 <= i < |options| ==> options[i] != [] by {
      forall i | 0 <= i < |options| ensures options[i] != [] {
        assert options[i] == Trim(optionInputs[i]);
      }
    }
    Quiz(id, time.value, Trim(questionInput), options, correctAnswer)
  }

  /**
   * The store after `addQuiz` has accepted `quiz` (and, where a quiz already
   * sat at the same second, the replacement was confirmed): remove the old
   * quiz at that second, push the new one, sort by time.
   */
  function AddedStore(qs: seq<Quiz>, quiz: Quiz): (r: seq<Quiz>)
    requires StoreInvariant(qs) && WellFormed(quiz)
    ensures StoreInvariant(r)
    ensures quiz in r
    ensures forall x :: x in r && x.time == quiz.time ==> x == quiz
    ensures forall x :: x in r <==> x == quiz || (x in qs && x.time != quiz.time)
    ensures |r| == if FindByTime(qs, quiz.time).Some? then |qs| else |qs| + 1
  {
    var kept := WithoutTime(qs, quiz.time);
    var r := SortByTime(kept + [quiz]);
    assert r == InsertByTime(quiz, kept) by {
      assert (kept + [quiz])[..|kept|] == kept;
      SortByTimeOfSorted(kept);
    }
    assert forall x :: x in r <==> x == quiz || x in kept by {
      assert forall x :: x in r <==> x in multiset(kept) + multiset{quiz};
    }
    assert Sorted(r) && UniqueTimes(r) by {
      InsertByTimeSorted(quiz, kept);
      InsertByTimeUnique(quiz, kept);
    }
    assert forall x :: x in r ==> WellFormed(x);
    assert |r| == |kept| + 1 by {
      assert |r| == |multiset(r)| == |multiset(kept + [quiz])| == |kept + [quiz]|;
    }
    r
  }
}
