/**
 The classification tree: a named sequence of species in insertion order
 plus a cached canonical question list. The canonical list holds every
 question once, in the order it is first met when scanning the species in
 tree order and each species' characteristics in stored order.
 */
module TreeDomain {
  import opened Types
  import opened SpeciesDomain

  /** A classification tree; `questions` is the cache filled by extraction. */
  datatype Tree = Tree(name: string, species: seq<Species>, questions: seq<string>)

  /** A fresh tree has the given name, no species and no questions. */
  function Create(name: string): (t: Tree)
    ensures t.name == name
    ensures |t.species| == 0 && |t.questions| == 0
  {
    Tree(name, [], [])
  }

  /**
   Appends a species. A missing species (NULL) is refused; otherwise it goes
   at the end and the earlier species keep their order. The question cache is
   left as it was, even though it may now be stale.
   */
  function AddSpecies(t: Tree, s: Option<Species>): (r: (bool, Tree))
    ensures r.0 <==> s.Some?
    ensures !r.0 ==> r.1 == t
    ensures r.0 ==> |r.1.species| == |t.species| + 1
    ensures r.0 ==> r.1.species[..|t.species|] == t.species && r.1.species[|t.species|] == s.value
    ensures r.1.name == t.name && r.1.questions == t.questions
  {
    if s.None? then (false, t)
    else (true, t.(species := t.species + [s.value]))
  }

  /** Every question of every species, species in tree order, characteristics in stored order. */
  function AllQuestions(species: seq<Species>): seq<string>
  {
    if |species| == 0 then []
    else AllQuestions(species[..|species| - 1]) + Questions(species[|species| - 1])
  }

  /** Total number of characteristics over all species. */
  function TotalCharacteristics(species: seq<Species>): nat
  {
    if |species| == 0 then 0
    else TotalCharacteristics(species[..|species| - 1]) + |species[|species| - 1].characteristics|
  }

  /**
   Reference definition of the canonical order: scan `s` left to right and
   keep an element only when it has not been kept before.
   */
  function FirstSeen(s: seq<string>): seq<string>
  {
    if |s| == 0 then []
    else
      var prev := FirstSeen(s[..|s| - 1]);
      if s[|s| - 1] in prev then prev else prev + [s[|s| - 1]]
  }

  /** No element occurs twice. */
  predicate NoDuplicates<T(==)>(s: seq<T>) {
    forall i, j :: 0 <= i < j < |s| ==> s[i] != s[j]
  }

  /** Index of the first occurrence of `x` in `s`. */
  function IndexOf<T(==)>(s: seq<T>, x: T): (k: nat)
    requires x in s
    ensures k < |s| && s[k] == x && x !in s[..k]
  {
    if s[0] == x then 0
    else
      assert x in s[1..];
      1 + IndexOf(s[1..], x)
  }

  /** The tree with its question cache recomputed, or None for a tree without species. */
  function Extracted(t: Tree): Option<Tree>
  {
    if |t.species| == 0 then None
    else Some(t.(questions := FirstSeen(AllQuestions(t.species))))
  }

  lemma {:induction false} FirstSeenSameElements(s: seq<string>)
    ensures forall x :: x in FirstSeen(s) <==> x in s
    decreases |s|
  {
    if |s| > 0 {
      FirstSeenSameElements(s[..|s| - 1]);
      assert s == s[..|s| - 1] + [s[|s| - 1]];
    }
  }

  lemma {:induction false} FirstSeenNoDuplicates(s: seq<string>)
    ensures NoDuplicates(FirstSeen(s))
    decreases |s|
  {
    if |s| > 0 {
      FirstSeenNoDuplicates(s[..|s| - 1]);
    }
  }

  lemma {:induction false} FirstSeenLength(s: seq<string>)
    ensures |FirstSeen(s)| <= |s|
    decreases |s|
  {
    if |s| > 0 {
      FirstSeenLength(s[..|s| - 1]);
    }
  }

  /** IndexOf in an extended sequence agrees with IndexOf in the original. */
  lemma {:induction false} IndexOfExtend(s: seq<string>, y: string, x: string)
    requires x in s
    ensures x in s + [y] && IndexOf(s + [y], x) == IndexOf(s, x)
    decreases |s|
  {
    if s[0] != x {
      assert (s + [y])[1..] == s[1..] + [y];
      IndexOfExtend(s[1..], y, x);
    }
  }

  /**
   The canonical list is ordered by first occurrence: an earlier entry first
   occurs strictly before a later one in the scanned questions.
   */
  lemma {:induction false} FirstSeenFirstOccurrenceOrder(s: seq<string>, i: nat, j: nat)
    requires i < j < |FirstSeen(s)|
    ensures FirstSeen(s)[i] in s && FirstSeen(s)[j] in s
    ensures IndexOf(s, FirstSeen(s)[i]) < IndexOf(s, FirstSeen(s)[j])
    decreases |s|
  {
    var r := FirstSeen(s);
    FirstSeenSameElements(s);
    assert r[i] in r && r[j] in r;
    var init := s[..|s| - 1];
    var last := s[|s| - 1];
    var prev := FirstSeen(init);
    assert s == init + [last];
    FirstSeenSameElements(init);
    if j < |prev| {
      assert r[i] == prev[i] && r[j] == prev[j];
      FirstSeenFirstOccurrenceOrder(init, i, j);
      IndexOfExtend(init, last, prev[i]);
      IndexOfExtend(init, last, prev[j]);
    } else {
      // r[j] is the newly kept last element; it did not occur in init
      assert r == prev + [last] && j == |prev| && r[j] == last;
      assert r[i] == prev[i] && prev[i] in prev;
      IndexOfExtend(init, last, prev[i]);
      assert last !in init;
    }
  }

  /** AllQuestions of a one-longer prefix adds the next species' questions. */
  lemma AllQuestionsStep(species: seq<Species>, i: nat)
    requires i < |species|
    ensures AllQuestions(species[..i + 1]) == AllQuestions(species[..i]) + Questions(species[i])
  {
    assert species[..i + 1][..i] == species[..i];
  }

  lemma {:induction false} FirstSeenBoundedByCharacteristics(species: seq<Species>)
    ensures |FirstSeen(AllQuestions(species))| <= TotalCharacteristics(species)
    ensures |AllQuestions(species)| == TotalCharacteristics(species)
    decreases |species|
  {
    FirstSeenLength(AllQuestions(species));
    if |species| > 0 {
      FirstSeenBoundedByCharacteristics(species[..|species| - 1]);
    }
  }

  /**
   Membership test used while collecting questions: is `q` among the first
   `n` entries of `questions`?
   */
  method IsQuestionInArray(questions: seq<string>, n: nat, q: string) returns (found: bool)
    requires n <= |questions|
    ensures found <==> q in questions[..n]
  {
    var i := 0;
    while i < n
      invariant 0 <= i <= n
      invariant q !in questions[..i]
    {
      if questions[i] == q {
        return true;
      }
      assert questions[..i + 1] == questions[..i] + [questions[i]];
      i := i + 1;
    }
    return false;
  }

  /**
   Recomputes the question cache. A tree without species is refused and left
   unchanged. Otherwise the previous list is discarded and replaced by the
   first-seen list of all questions, so the outcome does not depend on the
   old cache and a second extraction gives the same list.
   */
  method ExtractQuestions(t: Tree) returns (ok: bool, r: Tree)
    ensures ok <==> |t.species| > 0
    ensures !ok ==> r == t
    ensures ok ==> r.name == t.name && r.species == t.species
    ensures ok ==> r.questions == FirstSeen(AllQuestions(t.species))
  {
    if |t.species| == 0 {
      return false, t;
    }
    var unique: seq<string> := [];
    var i := 0;
    while i < |t.species|
      invariant 0 <= i <= |t.species|
      invariant unique == FirstSeen(AllQuestions(t.species[..i]))
    {
      var s := t.species[i];
      ghost var before := AllQuestions(t.species[..i]);
      var j := 0;
      assert before + Questions(s)[..0] == before;
      while j < |s.characteristics|
        invariant 0 <= j <= |s.characteristics|
        invariant unique == FirstSeen(before + Questions(s)[..j])
      {
        var question := s.characteristics[j].question;
        var seen := IsQuestionInArray(unique, |unique|, question);
        ghost var scanned := before + Questions(s)[..j + 1];
        assert scanned[..|scanned| - 1] == before + Questions(s)[..j];
        assert scanned[|scanned| - 1] == question;
        if !seen {
          unique := unique + [question];
        }
        j := j + 1;
      }
      assert Questions(s)[..j] == Questions(s);
      AllQuestionsStep(t.species, i);
      i := i + 1;
    }
    assert t.species[..i] == t.species;
    return true, t.(questions := unique);
  }

  /**
   Checks the tree before materialization. A tree without species fails.
   The question list is extracted only when the cache is empty; a non-empty
   cache is trusted as it is. Every species is then checked against the list
   and the ones out of order are reported (by index), but the result is
   true regardless, and the species are never changed.
   */
  method Validate(t: Tree) returns (ok: bool, r: Tree, reported: seq<nat>)
    ensures ok <==> |t.species| > 0
    ensures !ok ==> r == t && reported == []
    ensures r.name == t.name && r.species == t.species
    ensures ok && |t.questions| > 0 ==> r.questions == t.questions
    ensures ok && |t.questions| == 0 ==> r.questions == FirstSeen(AllQuestions(t.species))
    ensures forall k :: k in reported ==> k < |t.species|
    ensures ok ==> forall k :: 0 <= k < |t.species| ==> (k in reported <==> !Follows(t.species[k], r.questions))
  {
    if |t.species| == 0 {
      return false, t, [];
    }
    r := t;
    if |t.questions| == 0 {
      var extracted;
      extracted, r := ExtractQuestions(t);
      // extraction refuses only a tree without species, excluded above
      assert extracted;
    }
    reported := [];
    var i := 0;
    while i < |r.species|
      invariant 0 <= i <= |r.species|
      invariant forall k :: k in reported ==> k < i
      invariant forall k :: 0 <= k < i ==> (k in reported <==> !Follows(r.species[k], r.questions))
    {
      var follows, _ := FollowsQuestionOrder(r.species[i], r.questions);
      if !follows {
        reported := reported + [i];
      }
      i := i + 1;
    }
    return true, r, reported;
  }

  /**
   Once the canonical list has been extracted, the first species follows it
   if it repeats no question and the list is non-empty: a well-formed first
   species fixes the head of the canonical order. The converse is
   FirstSpeciesFollowsOnlyIfDistinct.
   */
  lemma {:induction false} FirstSpeciesFollowsExtraction(t: Tree)
    requires |t.species| > 0
    requires NoDuplicates(Questions(t.species[0]))
    requires |AllQuestions(t.species)| > 0
    ensures Follows(t.species[0], FirstSeen(AllQuestions(t.species)))
  {
    var q0 := Questions(t.species[0]);
    FirstSeenPrefix(t.species, |t.species|);
    assert t.species[..|t.species|] == t.species;
    FirstSeenOfDistinct(q0);
    FirstSeenSameElements(AllQuestions(t.species));
    assert AllQuestions(t.species)[0] in AllQuestions(t.species);
  }

  /**
   The converse: a first species that follows the extracted list repeats no
   question, since it is an initial segment of a list without repeats, and
   the list it follows is non-empty.
   */
  lemma FirstSpeciesFollowsOnlyIfDistinct(t: Tree)
    requires |t.species| > 0
    requires Follows(t.species[0], FirstSeen(AllQuestions(t.species)))
    ensures NoDuplicates(Questions(t.species[0]))
    ensures |AllQuestions(t.species)| > 0
  {
    var q0 := Questions(t.species[0]);
    var f := FirstSeen(AllQuestions(t.species));
    FirstSeenNoDuplicates(AllQuestions(t.species));
    FirstSeenLength(AllQuestions(t.species));
    assert q0 == f[..|q0|];
    forall i, j | 0 <= i < j < |q0|
      ensures q0[i] != q0[j]
    {
      assert q0[i] == f[i] && q0[j] == f[j];
    }
  }

  /** Extraction of a distinct list is the identity. */
  lemma {:induction false} FirstSeenOfDistinct(s: seq<string>)
    requires NoDuplicates(s)
    ensures FirstSeen(s) == s
    decreases |s|
  {
    if |s| > 0 {
      var init := s[..|s| - 1];
      assert NoDuplicates(init);
      FirstSeenOfDistinct(init);
      assert s == init + [s[|s| - 1]];
    }
  }

  /** Scanning more input only extends the first-seen list. */
  lemma {:induction false} FirstSeenAppend(a: seq<string>, b: seq<string>)
    ensures IsPrefix(FirstSeen(a), FirstSeen(a + b))
    decreases |b|
  {
    if |b| == 0 {
      assert a + b == a;
    } else {
      var b' := b[..|b| - 1];
      FirstSeenAppend(a, b');
      assert (a + b)[..|a + b| - 1] == a + b';
    }
  }

  /** The first species' questions, deduplicated, head the canonical list. */
  lemma {:induction false} FirstSeenPrefix(species: seq<Species>, n: nat)
    requires 0 < n <= |species|
    ensures IsPrefix(FirstSeen(Questions(species[0])), FirstSeen(AllQuestions(species[..n])))
    decreases n
  {
    if n == 1 {
      var one := species[..1];
      assert one[..0] == [] && one[0] == species[0];
      assert AllQuestions(one) == AllQuestions(one[..0]) + Questions(one[0]);
      assert AllQuestions(one) == Questions(species[0]);
    } else {
      FirstSeenPrefix(species, n - 1);
      AllQuestionsStep(species, n - 1);
      FirstSeenAppend(AllQuestions(species[..n - 1]), Questions(species[n - 1]));
    }
  }
}
