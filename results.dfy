/**
  The tally of a poll (`getResults`, server/index.js and client/src/pages/Teacher.jsx):
  an object whose keys are the poll's options, in the order they first occur,
  each holding the number of recorded answers that are exactly that option.
  Answers that match no option are counted nowhere.
 */
module Results {
  import opened Wrappers
  import opened Dict

  /** The number of entries of `s` that are exactly `x`. */
  function Count(s: seq<string>, x: string): nat
  {
    if s == [] then 0
    else Count(s[..|s| - 1], x) + (if s[|s| - 1] == x then 1 else 0)
  }

  /** `Count` is the multiplicity of `x` in `s`, so never more than `|s|`. */
  lemma {:induction false} CountIsMultiplicity(s: seq<string>, x: string)
    ensures Count(s, x) == multiset(s)[x]
    ensures Count(s, x) <= |s|
  {
    if s != [] {
      CountIsMultiplicity(s[..|s| - 1], x);
      assert s == s[..|s| - 1] + [s[|s| - 1]];
    }
  }

  /** The number of entries of `answers` that equal one of `options`. */
  function Matching(answers: seq<string>, options: seq<string>): (n: nat)
    ensures n <= |answers|
  {
    if answers == [] then 0
    else Matching(answers[..|answers| - 1], options) + (if answers[|answers| - 1] in options then 1 else 0)
  }

  /** No key occurs twice. */
  ghost predicate Distinct(keys: seq<string>)
  {
    forall i, j :: 0 <= i < j < |keys| ==> keys[i] != keys[j]
  }

  /** The distinct elements of `s`, in the order of their first occurrence. */
  function Dedup(s: seq<string>): (d: seq<string>)
    ensures Distinct(d)
    ensures forall x :: x in d <==> x in s
  {
    if s == [] then []
    else
      var d := Dedup(s[..|s| - 1]);
      assert s == s[..|s| - 1] + [s[|s| - 1]];
      if s[|s| - 1] in d then d else d + [s[|s| - 1]]
  }

  /** One bucket per key, each holding its count among `answers`. */
  function CountsFor(keys: seq<string>, answers: seq<string>): Dict<nat>
  {
    seq(|keys|, i requires 0 <= i < |keys| => Entry(keys[i], Count(answers, keys[i])))
  }

  /** The tally that `getResults` builds for `options` and the values of the answers object. */
  function Tally(options: seq<string>, answers: seq<string>): Dict<nat>
  {
    CountsFor(Dedup(options), answers)
  }

  /**
    The tally's shape: distinct keys, exactly the options, each holding the
    number of answers exactly equal to it.
   */
  lemma TallyShape(options: seq<string>, answers: seq<string>)
    ensures DistinctKeys(Tally(options, answers))
    ensures forall i :: 0 <= i < |Tally(options, answers)| ==> Tally(options, answers)[i].key in options
    ensures forall o :: o in options ==>
      exists i :: 0 <= i < |Tally(options, answers)| && Tally(options, answers)[i].key == o
    ensures forall i :: 0 <= i < |Tally(options, answers)| ==>
      Tally(options, answers)[i].val == Count(answers, Tally(options, answers)[i].key)
  {
    var keys := Dedup(options);
    var counts := Tally(options, answers);
    forall o | o in options ensures exists i :: 0 <= i < |counts| && counts[i].key == o {
      assert counts[IndexOfSeq(keys, o)].key == o;
    }
  }

  /** The position of `x` in `s`, which holds it. */
  function IndexOfSeq(s: seq<string>, x: string): (i: nat)
    requires x in s
    ensures i < |s| && s[i] == x
  {
    if s[0] == x then 0 else 1 + IndexOfSeq(s[1..], x)
  }

  /** The sum of the counts of a tally. */
  function Sum(d: Dict<nat>): nat
  {
    if d == [] then 0 else d[0].val + Sum(d[1..])
  }

  /**
    Reading a bucket: every option has one, holding the number of answers
    exactly equal to it; an answer that is no option has none.
   */
  lemma TallyGet(options: seq<string>, answers: seq<string>, x: string)
    ensures Get(Tally(options, answers), x) == if x in options then Some(Count(answers, x)) else None
  {
    var keys := Dedup(options);
    var counts := Tally(options, answers);
    TallyShape(options, answers);
    if x in options {
      var i := IndexOfSeq(keys, x);
      assert counts[i].key == x;
      assert IndexOf(counts, x) == i;
    }
  }

  lemma CountAppend(s: seq<string>, y: string, x: string)
    ensures Count(s + [y], x) == Count(s, x) + (if y == x then 1 else 0)
  {
    assert (s + [y])[..|s|] == s;
  }

  lemma SumCountsCons(keys: seq<string>, answers: seq<string>)
    requires keys != []
    ensures Sum(CountsFor(keys, answers)) == Count(answers, keys[0]) + Sum(CountsFor(keys[1..], answers))
  {
    assert CountsFor(keys, answers)[1..] == CountsFor(keys[1..], answers);
  }

  lemma {:induction false} SumCountsStep(keys: seq<string>, answers: seq<string>, y: string)
    requires Distinct(keys)
    ensures Sum(CountsFor(keys, answers + [y])) == Sum(CountsFor(keys, answers)) + (if y in keys then 1 else 0)
  {
    if keys != [] {
      var k, rest := keys[0], keys[1..];
      assert Distinct(rest) by {
        forall i, j | 0 <= i < j < |rest| ensures rest[i] != rest[j] { assert rest[i] == keys[i + 1]; }
      }
      SumCountsStep(rest, answers, y);
      CountAppend(answers, y, k);
      SumCountsCons(keys, answers + [y]);
      SumCountsCons(keys, answers);
      assert keys == [k] + rest;
      if y == k {
        assert y !in rest by {
          forall j | 0 <= j < |rest| ensures rest[j] != y { assert rest[j] == keys[j + 1]; }
        }
      }
    }
  }

  lemma {:induction false} SumCountsEmpty(keys: seq<string>)
    ensures Sum(CountsFor(keys, [])) == 0
  {
    if keys != [] {
      SumCountsEmpty(keys[1..]);
      SumCountsCons(keys, []);
    }
  }

  /**
    The counts add up to the number of answers that match some option, so
    never to more than the number of answers.
   */
  lemma {:induction false} TallySum(options: seq<string>, answers: seq<string>)
    ensures Sum(Tally(options, answers)) == Matching(answers, options)
    ensures Sum(Tally(options, answers)) <= |answers|
  {
    var keys := Dedup(options);
    if answers == [] {
      SumCountsEmpty(keys);
    } else {
      var init := answers[..|answers| - 1];
      var y := answers[|answers| - 1];
      TallySum(options, init);
      assert answers == init + [y];
      SumCountsStep(keys, init, y);
    }
  }

  /** The first loop of `getResults`: one more option adds a zero bucket unless its key is already there. */
  lemma ZeroStep(options: seq<string>, o: string)
    ensures Set(Tally(options, []), o, 0) == Tally(options + [o], [])
  {
    var p := options + [o];
    assert p[..|p| - 1] == options;
    var keys := Dedup(options);
    var d := Tally(options, []);
    TallyGet(options, [], o);
    if o in keys {
      var i := IndexOf(d, o);
      assert d[i] == Entry(o, 0);
      assert d[i := Entry(o, 0)] == d;
    } else {
      assert CountsFor(keys + [o], []) == d + [Entry(o, 0)];
    }
  }

  /**
    The second loop of `getResults`: one more answer increments the bucket
    named by it, if there is one, and leaves every other bucket alone.
   */
  lemma VoteStep(options: seq<string>, answers: seq<string>, y: string)
    ensures var d := Tally(options, answers);
      Tally(options, answers + [y]) == match Get(d, y)
        case Some(c) => Set(d, y, c + 1)
        case None => d
  {
    var keys := Dedup(options);
    var d := Tally(options, answers);
    var d' := Tally(options, answers + [y]);
    TallyGet(options, answers, y);
    forall i | 0 <= i < |keys| ensures Count(answers + [y], keys[i]) == Count(answers, keys[i]) + (if y == keys[i] then 1 else 0) {
      CountAppend(answers, y, keys[i]);
    }
    if y in options {
      var i := IndexOf(d, y);
      assert d' == d[i := Entry(y, Count(answers, y) + 1)];
    } else {
      assert d' == d;
    }
  }

  lemma ZeroStepAt(options: seq<string>, i: nat)
    requires i < |options|
    ensures Set(Tally(options[..i], []), options[i], 0) == Tally(options[..i + 1], [])
  {
    ZeroStep(options[..i], options[i]);
    assert options[..i + 1] == options[..i] + [options[i]];
  }

  lemma VoteStepAt(options: seq<string>, answers: seq<string>, j: nat)
    requires j < |answers|
    ensures var d := Tally(options, answers[..j]);
      Tally(options, answers[..j + 1]) == match Get(d, answers[j])
        case Some(c) => Set(d, answers[j], c + 1)
        case None => d
  {
    VoteStep(options, answers[..j], answers[j]);
    assert answers[..j + 1] == answers[..j] + [answers[j]];
  }

  /**
    `getResults` as the source writes it: a zero for every option, then one
    increment per answer whose value is already a key.
   */
  method CountVotes(options: seq<string>, answers: seq<string>) returns (counts: Dict<nat>)
    ensures counts == Tally(options, answers)
  {
    counts := [];
    for i := 0 to |options|
      invariant counts == Tally(options[..i], [])
    {
      ZeroStepAt(options, i);
      counts := Set(counts, options[i], 0);
    }
    assert options[..|options|] == options;
    for j := 0 to |answers|
      invariant counts == Tally(options, answers[..j])
    {
      var a := answers[j];
      VoteStepAt(options, answers, j);
      var c := Get(counts, a);
      if c.Some? {
        counts := Set(counts, a, c.value + 1);
      }
    }
    assert answers[..|answers|] == answers;
  }
}
