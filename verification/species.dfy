/**
 A species of the classification key: a name and the ordered list of
 (question, answer) characteristics that the key assigns to it, together
 with the check that a species lists its questions in the canonical order.
 */
module SpeciesDomain {
  import opened Types

  /** One distinguishing trait: a yes/no question and this species' answer. */
  datatype Characteristic = Characteristic(question: string, answer: bool)

  /** A species; its characteristics keep the order in which they were added. */
  datatype Species = Species(name: string, characteristics: seq<Characteristic>)

  /** The questions a species answers, in stored order. */
  function Questions(s: Species): (qs: seq<string>)
    ensures |qs| == |s.characteristics|
    ensures forall i :: 0 <= i < |qs| ==> qs[i] == s.characteristics[i].question
  {
    seq(|s.characteristics|, i requires 0 <= i < |s.characteristics| => s.characteristics[i].question)
  }

  /** `a` is an initial segment of `b`. */
  predicate IsPrefix<T(==)>(a: seq<T>, b: seq<T>) {
    |a| <= |b| && a == b[..|a|]
  }

  lemma PrefixTransitive<T>(a: seq<T>, b: seq<T>, c: seq<T>)
    requires IsPrefix(a, b) && IsPrefix(b, c)
    ensures IsPrefix(a, c)
  {
    assert c[..|a|] == c[..|b|][..|a|];
  }

  /** A fresh species carries the given name and no characteristics. */
  function Create(name: string): (s: Species)
    ensures s.name == name
    ensures |s.characteristics| == 0
  {
    Species(name, [])
  }

  /**
   Appends (question, answer) to a species. A missing species or question
   (a NULL argument) is refused with `false` and nothing changes; otherwise
   the new characteristic lands at index `|characteristics|` and everything
   before it is kept.
   */
  function AddCharacteristic(s: Option<Species>, question: Option<string>, answer: bool): (r: (bool, Option<Species>))
    ensures !r.0 <==> s.None? || question.None?
    ensures !r.0 ==> r.1 == s
    ensures r.0 ==> r.1.Some? && r.1.value.name == s.value.name
    ensures r.0 ==> |r.1.value.characteristics| == |s.value.characteristics| + 1
    ensures r.0 ==> r.1.value.characteristics[..|s.value.characteristics|] == s.value.characteristics
    ensures r.0 ==> r.1.value.characteristics[|s.value.characteristics|] == Characteristic(question.value, answer)
  {
    if s.None? || question.None? then (false, s)
    else (true, Some(s.value.(characteristics := s.value.characteristics + [Characteristic(question.value, answer)])))
  }

  /**
   Reference meaning of the order check: there is at least one expected
   question and the species' questions are an initial segment of them.
   */
  predicate Follows(s: Species, expected: seq<string>) {
    |expected| > 0 && IsPrefix(Questions(s), expected)
  }

  /** What the order check concluded, naming the warning it would log. */
  datatype OrderVerdict =
    | InOrder
      /** the expected list was empty */
    | NoExpectedQuestions
      /** characteristic `index` was first found further ahead, at `foundAt` */
    | OutOfOrder(index: nat, foundAt: nat)
      /** characteristic `index` does not occur at or after the cursor */
    | Unexpected(index: nat)

  /**
   Walks the characteristics with a cursor into `expected`. Each question is
   searched from the cursor onwards: found at the cursor, the cursor advances;
   found further ahead, the check stops with OutOfOrder; not found, it stops
   with Unexpected. The verdict at a failing index i is fixed by the
   characteristics up to i: later ones are never looked at.
   */
  method FollowsQuestionOrder(s: Species, expected: seq<string>) returns (ok: bool, verdict: OrderVerdict)
    ensures ok <==> verdict == InOrder
    ensures ok <==> Follows(s, expected)
    ensures |expected| == 0 <==> verdict == NoExpectedQuestions
    ensures verdict.OutOfOrder? ==>
              var i := verdict.index;
              && i < |s.characteristics| && i < verdict.foundAt < |expected|
              && Questions(s)[..i] == expected[..i]
              && expected[verdict.foundAt] == s.characteristics[i].question
              && s.characteristics[i].question !in expected[i..verdict.foundAt]
    ensures verdict.Unexpected? ==>
              var i := verdict.index;
              && i < |s.characteristics| && i <= |expected|
              && Questions(s)[..i] == expected[..i]
              && s.characteristics[i].question !in expected[i..]
  {
    if |expected| == 0 {
      return false, NoExpectedQuestions;
    }
    var qs := Questions(s);
    var cursor := 0;
    var i := 0;
    while i < |s.characteristics|
      invariant 0 <= i <= |s.characteristics|
      invariant cursor == i && i <= |expected|
      invariant qs[..i] == expected[..i]
    {
      var question := s.characteristics[i].question;
      var found := false;
      var j := cursor;
      while j < |expected|
        invariant cursor <= j <= |expected|
        invariant question !in expected[cursor..j]
      {
        if question == expected[j] {
          if j != cursor {
            return false, OutOfOrder(i, j);
          }
          found := true;
          break;
        }
        j := j + 1;
      }
      if !found {
        return false, Unexpected(i);
      }
      assert qs[..i + 1] == qs[..i] + [question];
      assert expected[..i + 1] == expected[..i] + [expected[i]];
      cursor := cursor + 1;
      i := i + 1;
    }
    assert qs == qs[..i];
    return true, InOrder;
  }
}
