/** The deterministic part of one quiz run (run_game in src/main.rs): the options of a
    question shown in shuffled order, one key read per round resolved to an option, and the
    two counters. The shuffle and the key read are parameters. */
module Game {
  import opened Types

  /** The code of a key event; only a character key can name an option. */
  datatype KeyCode = Char(c: char) | OtherKey

  /** What the single terminal read of a round returned. */
  datatype InputEvent = Key(code: KeyCode) | NonKey | ReadFailed

  /** One printed option: its 1-based label and its text. */
  datatype OptionLine = OptionLine(number: nat, text: string)

  datatype Tally = Tally(correct: nat, incorrect: nat)

  /** Everything one round computes. */
  datatype Round = Round(lines: seq<OptionLine>, correctAnswer: nat, answer: nat, tally: Tally)

  /** The "no answer" value of the round (usize::MAX on a 64-bit target). */
  const UsizeMax: nat := 0xFFFF_FFFF_FFFF_FFFF

  const Radix: nat := 10

  /** The option values before shuffling: 0, 1, ..., n. */
  function Indices(n: nat): seq<nat>
  {
    if n == 0 then [0] else Indices(n - 1) + [n]
  }

  /** `options` is a rearrangement of 0, 1, ..., n: n + 1 distinct values, none above n. */
  predicate IsShuffleOf(options: seq<nat>, n: nat)
  {
    && |options| == n + 1
    && (forall i :: 0 <= i < |options| ==> options[i] <= n)
    && (forall i, j :: 0 <= i < j < |options| ==> options[i] != options[j])
  }

  /** The wrong answers followed by the right one: value v of an option shows All(q)[v]. */
  function AllAnswers(q: Question): seq<string>
  {
    q.wrongAnswers + [q.answer]
  }

  /** The character char::from_digit gives a digit below the radix. */
  function DigitChar(d: nat): char
    requires d < Radix
  {
    ('0' as int + d) as char
  }

  /** Reference definition: the display position a key picks among `count` options, or
      UsizeMax when it picks none. Digit key d, 1 <= d <= count, picks position d - 1. */
  function Selection(input: InputEvent, count: nat): nat
  {
    match input
    case Key(Char(c)) =>
      if '1' <= c <= '9' && c as int - '0' as int <= count then c as int - '1' as int else UsizeMax
    case _ => UsizeMax
  }

  /** Reference definition of a right answer: the key picks the position holding value n. */
  predicate AnsweredCorrectly(options: seq<nat>, n: nat, input: InputEvent)
  {
    var s := Selection(input, |options|);
    s < |options| && options[s] == n
  }

  /** A key event with ten or more options makes the digit conversion panic. */
  predicate Panics(q: Question, input: InputEvent)
  {
    input.Key? && |q.wrongAnswers| >= 9
  }

  /** Some round of the run panics. */
  predicate SomeRoundPanics(questions: seq<Question>, inputs: seq<InputEvent>)
    requires |inputs| == |questions|
  {
    exists k :: 0 <= k < |questions| && Panics(questions[k], inputs[k])
  }

  /** Number of rounds among the first k that were answered correctly. */
  function CorrectCount(questions: seq<Question>, shuffles: seq<seq<nat>>, inputs: seq<InputEvent>, k: nat): nat
    requires |shuffles| == |questions| && |inputs| == |questions| && k <= |questions|
  {
    if k == 0 then 0
    else
      CorrectCount(questions, shuffles, inputs, k - 1)
      + (if AnsweredCorrectly(shuffles[k - 1], |questions[k - 1].wrongAnswers|, inputs[k - 1]) then 1 else 0)
  }

  function Texts(lines: seq<OptionLine>): seq<string>
  {
    seq(|lines|, i requires 0 <= i < |lines| => lines[i].text)
  }

  /** The elements of `all` at the given indices, in index order. */
  function Pick<T>(all: seq<T>, indices: seq<nat>): seq<T>
    requires forall i :: 0 <= i < |indices| ==> indices[i] < |all|
  {
    seq(|indices|, i requires 0 <= i < |indices| => all[indices[i]])
  }

  /** The per-round display loop: position `index` shows the answer when its value is n
      and the wrong answer numbered by its value otherwise; the position showing the answer
      is remembered. */
  method ShowOptions(q: Question, options: seq<nat>) returns (lines: seq<OptionLine>, correctAnswer: nat)
    requires IsShuffleOf(options, |q.wrongAnswers|)
    ensures |lines| == |options| == |q.wrongAnswers| + 1
    ensures correctAnswer < |options|
    ensures forall i :: 0 <= i < |options| ==> (options[i] == |q.wrongAnswers| <==> i == correctAnswer)
    ensures forall i :: 0 <= i < |lines| ==> lines[i].number == i + 1
    ensures lines[correctAnswer].text == q.answer
    ensures forall i :: 0 <= i < |options| && i != correctAnswer ==>
              options[i] < |q.wrongAnswers| && lines[i].text == q.wrongAnswers[options[i]]
    ensures multiset(Texts(lines)) == multiset(AllAnswers(q))
  {
    var n := |q.wrongAnswers|;
    ShuffleFacts(options, n);
    lines := [];
    correctAnswer := 0;
    for index := 0 to |options|
      invariant |lines| == index
      invariant forall i :: 0 <= i < index ==>
                  lines[i].number == i + 1 && lines[i].text == AllAnswers(q)[options[i]]
      invariant (exists i :: 0 <= i < index && options[i] == n) ==>
                  correctAnswer < index && options[correctAnswer] == n
    {
      var order := options[index];
      if order == n {
        lines := lines + [OptionLine(index + 1, q.answer)];
        correctAnswer := index;
      } else {
        lines := lines + [OptionLine(index + 1, q.wrongAnswers[order])];
      }
    }
    assert options[correctAnswer] == n by {
      assert n in options;
    }
    ShownTexts(q, options, lines);
  }

  /** The texts the display loop printed are the answers picked in option order, and so
      a rearrangement of all the answers. */
  lemma ShownTexts(q: Question, options: seq<nat>, lines: seq<OptionLine>)
    requires IsShuffleOf(options, |q.wrongAnswers|)
    requires |lines| == |options|
    requires forall i :: 0 <= i < |options| ==> options[i] <= |q.wrongAnswers|
    requires forall i :: 0 <= i < |lines| ==> lines[i].text == AllAnswers(q)[options[i]]
    ensures multiset(Texts(lines)) == multiset(AllAnswers(q))
  {
    assert Texts(lines) == Pick(AllAnswers(q), options);
    PickShuffle(AllAnswers(q), options);
  }

  /** The key loop: it runs over option VALUES and converts value + 1 to a digit, which
      panics once a value reaches 9; a key equal to that digit sets the answer to the value.
      Since the values are 0..n, the effect is that digit d selects position d - 1. */
  method ResolveKey(options: seq<nat>, input: InputEvent) returns (r: Result<nat, Error>)
    requires |options| > 0 && IsShuffleOf(options, |options| - 1)
    ensures r.Failure? <==> input.Key? && |options| > 9
    ensures r.Failure? ==> r.error == OptionNotDigit
    ensures r.Success? ==> r.value == Selection(input, |options|)
  {
    ShuffleFacts(options, |options| - 1);
    var answer: nat := UsizeMax;
    match input {
      case Key(code) =>
        for i := 0 to |options|
          invariant forall m :: 0 <= m < i ==> options[m] + 1 < Radix
          invariant answer == UsizeMax || (answer + 1 < Radix && code == Char(DigitChar(answer + 1)))
          invariant answer == UsizeMax || answer < |options|
          invariant forall m :: 0 <= m < i && code == Char(DigitChar(options[m] + 1)) ==> answer == options[m]
        {
          var option := options[i];
          if option + 1 >= Radix {
            return Failure(OptionNotDigit);
          }
          var optionChar := DigitChar(option + 1);
          if code == Char(optionChar) {
            answer := option;
          }
        }
        assert |options| <= 9 by {
          assert |options| - 1 in options;
        }
        if code.Char? && '1' <= code.c <= '9' && code.c as int - '0' as int <= |options| {
          var d := code.c as int - '0' as int;
          assert d - 1 in options;
          assert DigitChar(d) == code.c;
        }
      case NonKey =>
      case ReadFailed =>
    }
    return Success(answer);
  }

  /** One round of run_game: display, read, score. Exactly one counter moves. */
  method PlayRound(q: Question, options: seq<nat>, input: InputEvent, tally: Tally) returns (r: Result<Round, Error>)
    requires IsShuffleOf(options, |q.wrongAnswers|)
    requires |q.wrongAnswers| < UsizeMax  // a vector's length stays below usize::MAX
    ensures r.Failure? <==> Panics(q, input)
    ensures r.Failure? ==> r.error == OptionNotDigit
    ensures r.Success? ==> r.value.answer == Selection(input, |options|)
    ensures r.Success? ==> r.value.correctAnswer < |options| && options[r.value.correctAnswer] == |q.wrongAnswers|
    ensures r.Success? ==> |r.value.lines| == |options| && r.value.lines[r.value.correctAnswer].text == q.answer
    ensures r.Success? ==>
              r.value.tally == (if AnsweredCorrectly(options, |q.wrongAnswers|, input)
                                then Tally(tally.correct + 1, tally.incorrect)
                                else Tally(tally.correct, tally.incorrect + 1))
  {
    var lines, correctAnswer := ShowOptions(q, options);
    var answer :- ResolveKey(options, input);
    var next: Tally;
    if answer == correctAnswer {
      next := Tally(tally.correct + 1, tally.incorrect);
    } else {
      next := Tally(tally.correct, tally.incorrect + 1);
    }
    return Success(Round(lines, correctAnswer, answer, next));
  }

  /** run_game without the printing: every question is played in order and the tally of
      the rounds is returned; the conversion panic ends the whole run. */
  method RunGame(questions: seq<Question>, shuffles: seq<seq<nat>>, inputs: seq<InputEvent>)
    returns (r: Result<Tally, Error>)
    requires |shuffles| == |questions| && |inputs| == |questions|
    requires forall k :: 0 <= k < |questions| ==>
               IsShuffleOf(shuffles[k], |questions[k].wrongAnswers|) && |questions[k].wrongAnswers| < UsizeMax
    ensures r.Failure? <==> SomeRoundPanics(questions, inputs)
    ensures r.Failure? ==> r.error == OptionNotDigit
    ensures r.Success? ==> r.value.correct + r.value.incorrect == |questions|
    ensures r.Success? ==> r.value.correct == CorrectCount(questions, shuffles, inputs, |questions|)
  {
    var tally := Tally(0, 0);
    for k := 0 to |questions|
      invariant forall m :: 0 <= m < k ==> !Panics(questions[m], inputs[m])
      invariant tally.correct + tally.incorrect == k
      invariant tally.correct == CorrectCount(questions, shuffles, inputs, k)
    {
      var round := PlayRound(questions[k], shuffles[k], inputs[k], tally);
      if round.Failure? {
        assert SomeRoundPanics(questions, inputs) by {
          assert Panics(questions[k], inputs[k]);
        }
        return Failure(round.error);
      }
      assert CorrectCount(questions, shuffles, inputs, k + 1)
             == CorrectCount(questions, shuffles, inputs, k)
                + (if AnsweredCorrectly(shuffles[k], |questions[k].wrongAnswers|, inputs[k]) then 1 else 0);
      tally := round.value.tally;
    }
    return Success(tally);
  }

  lemma {:induction false} IndicesCount(n: nat, v: nat)
    ensures |Indices(n)| == n + 1
    ensures multiset(Indices(n))[v] == if v <= n then 1 else 0
  {
    if n > 0 {
      IndicesCount(n - 1, v);
    }
  }

  /** The values of a sequence. */
  function Values(s: seq<nat>): set<nat>
  {
    set i | 0 <= i < |s| :: s[i]
  }

  /** The values 0, 1, ..., n. */
  function UpTo(n: nat): set<nat>
  {
    if n == 0 then {0} else UpTo(n - 1) + {n}
  }

  lemma {:induction false} UpToFacts(n: nat)
    ensures |UpTo(n)| == n + 1
    ensures forall v: nat :: v in UpTo(n) <==> v <= n
  {
    if n > 0 {
      UpToFacts(n - 1);
    }
  }

  /** Distinct elements: as many values as positions. */
  lemma {:induction false} DistinctValues(s: seq<nat>)
    requires forall i, j :: 0 <= i < j < |s| ==> s[i] != s[j]
    ensures |Values(s)| == |s|
  {
    if |s| > 0 {
      var k := |s| - 1;
      DistinctValues(s[..k]);
      assert Values(s) == Values(s[..k]) + {s[k]};
      assert s[k] !in Values(s[..k]);
    } else {
      assert Values(s) == {};
    }
  }

  lemma {:induction false} SubsetSize(a: set<nat>, b: set<nat>)
    requires a <= b
    ensures |a| <= |b|
  {
    if a != {} {
      var x :| x in a;
      SubsetSize(a - {x}, b - {x});
    }
  }

  /** Distinct elements: each value at most once. */
  lemma {:induction false} DistinctCount(s: seq<nat>, v: nat)
    requires forall i, j :: 0 <= i < j < |s| ==> s[i] != s[j]
    ensures multiset(s)[v] <= 1
  {
    if |s| > 0 {
      var k := |s| - 1;
      DistinctCount(s[..k], v);
      assert s == s[..k] + [s[k]];
      if s[k] == v {
        assert v !in s[..k];
      }
    }
  }

  /** Pigeonhole: n + 1 distinct values none above n are all of 0..n, each once, so a
      shuffle holds exactly the multiset of 0..n. */
  lemma ShuffleFacts(options: seq<nat>, n: nat)
    requires IsShuffleOf(options, n)
    ensures forall v :: 0 <= v <= n ==> v in options
    ensures multiset(options) == multiset(Indices(n))
  {
    DistinctValues(options);
    UpToFacts(n);
    assert Values(options) <= UpTo(n);
    forall v | 0 <= v <= n
      ensures v in options
    {
      if v !in options {
        assert Values(options) <= UpTo(n) - {v};
        SubsetSize(Values(options), UpTo(n) - {v});
      }
    }
    forall v: nat
      ensures multiset(options)[v] == multiset(Indices(n))[v]
    {
      IndicesCount(n, v);
      DistinctCount(options, v);
      if v <= n {
        assert v in options;
      }
    }
  }

  lemma {:induction false} PickConcat<T>(all: seq<T>, a: seq<nat>, b: seq<nat>)
    requires forall i :: 0 <= i < |a| ==> a[i] < |all|
    requires forall i :: 0 <= i < |b| ==> b[i] < |all|
    ensures Pick(all, a + b) == Pick(all, a) + Pick(all, b)
  {
    var ab := a + b;
    assert forall i :: 0 <= i < |ab| ==> ab[i] < |all|;
  }

  /** Picking by two index lists that are rearrangements of each other yields
      rearrangements of each other. */
  lemma {:induction false} PickRearranged<T>(all: seq<T>, s: seq<nat>, t: seq<nat>)
    requires forall i :: 0 <= i < |s| ==> s[i] < |all|
    requires forall i :: 0 <= i < |t| ==> t[i] < |all|
    requires multiset(s) == multiset(t)
    ensures multiset(Pick(all, s)) == multiset(Pick(all, t))
  {
    assert |s| == |multiset(s)| == |multiset(t)| == |t|;
    if |s| > 0 {
      var k := |s| - 1;
      var x := s[k];
      RemoveOne(s, k);
      assert s[..k] + s[k + 1..] == s[..k];
      assert x in multiset(t);
      var j :| 0 <= j < |t| && t[j] == x;
      RemoveOne(t, j);
      var rest: seq<nat> := t[..j] + t[j + 1..];
      assert forall i :: 0 <= i < |rest| ==> rest[i] < |all|;
      PickRearranged(all, s[..k], rest);
      PickRemoved(all, s, k);
      PickRemoved(all, t, j);
    }
  }

  lemma RemoveOne(t: seq<nat>, j: nat)
    requires j < |t|
    ensures multiset(t[..j] + t[j + 1..]) == multiset(t) - multiset{t[j]}
  {
    assert t == t[..j] + [t[j]] + t[j + 1..];
  }

  lemma PickRemoved<T>(all: seq<T>, t: seq<nat>, j: nat)
    requires forall i :: 0 <= i < |t| ==> t[i] < |all|
    requires j < |t|
    ensures multiset(Pick(all, t)) == multiset(Pick(all, t[..j] + t[j + 1..])) + multiset{all[t[j]]}
  {
    var x := t[j];
    var a, b := t[..j], t[j + 1..];
    assert forall i :: 0 <= i < |a| ==> a[i] < |all|;
    assert forall i :: 0 <= i < |b| ==> b[i] < |all|;
    assert t == (a + [x]) + b;
    PickConcat(all, a + [x], b);
    PickConcat(all, a, [x]);
    PickConcat(all, a, b);
    var pa, pb := Pick(all, a), Pick(all, b);
    assert Pick(all, t) == pa + [all[x]] + pb;
    assert Pick(all, a + b) == pa + pb;
    assert multiset(pa + [all[x]] + pb) == multiset(pa) + multiset{all[x]} + multiset(pb);
  }

  /** Showing the answers in a shuffled order shows each of them exactly as often as it
      occurs among the answers. */
  lemma PickShuffle<T>(all: seq<T>, options: seq<nat>)
    requires |all| > 0 && IsShuffleOf(options, |all| - 1)
    ensures multiset(Pick(all, options)) == multiset(all)
  {
    var n := |all| - 1;
    ShuffleFacts(options, n);
    IndicesCount(n, 0);
    forall i | 0 <= i < |Indices(n)|
      ensures Indices(n)[i] == i
    {
      IndicesAt(n, i);
    }
    assert Pick(all, Indices(n)) == all;
    PickRearranged(all, options, Indices(n));
  }

  lemma {:induction false} IndicesAt(n: nat, i: nat)
    requires i <= n
    ensures |Indices(n)| == n + 1 && Indices(n)[i] == i
  {
    IndicesCount(n, 0);
    if i < n {
      IndicesAt(n - 1, i);
    }
  }

  /** The digit printed next to a position, pressed, picks that very position, and the
      round is won exactly when that position shows the answer. */
  lemma KeyPicksLabel(options: seq<nat>, n: nat, i: nat)
    requires IsShuffleOf(options, n) && i < |options| <= 9
    ensures Selection(Key(Char(DigitChar(i + 1))), |options|) == i
    ensures AnsweredCorrectly(options, n, Key(Char(DigitChar(i + 1)))) <==> options[i] == n
  {
  }

  /** Pressing 2 when the second line shows the answer scores a right answer; pressing it
      when the second line shows a wrong answer, or pressing a key that labels no line,
      scores a wrong one. */
  lemma KeyTwoScenario(n: nat, options: seq<nat>)
    requires IsShuffleOf(options, n) && 2 <= |options| <= 9
    ensures AnsweredCorrectly(options, n, Key(Char('2'))) <==> options[1] == n
    ensures !AnsweredCorrectly(options, n, Key(Char('0')))
    ensures !AnsweredCorrectly(options, n, Key(OtherKey))
    ensures !AnsweredCorrectly(options, n, ReadFailed)
  {
    KeyPicksLabel(options, n, 1);
    assert DigitChar(2) == '2';
  }
}
