/**
 Path synthesis for the directory structure: one species, the canonical
 question list and the naming configuration determine a chain of
 directories (one per canonical question the species answers) and a leaf
 file `<name>.txt` at the end of the chain.
 */
module PathSynthesis {
  import opened Types
  import opened SpeciesDomain

  /** Run configuration: where to build, how to label answers, how to join names. */
  datatype Config = Config(
    rootDir: string,
    trueText: string,
    falseText: string,
    concatMode: ConcatMode,
    useMultipleProcesses: bool)

  /** The label that stands for an answer. */
  function Label(answer: bool, trueText: string, falseText: string): string {
    if answer then trueText else falseText
  }

  /** Directory name for one answered question, per concatenation mode. */
  function Segment(tag: string, question: string, mode: ConcatMode): string {
    match mode
    case PrefixMode => tag + " " + question
    case SuffixMode => question + " " + tag
    case BothModes => tag + " " + question + " " + tag
  }

  /** Size of the buffer the program allocates for a characteristic path, terminator included. */
  function AllocatedSize(root: string, question: string, tag: string, mode: ConcatMode): nat {
    match mode
    case PrefixMode => |root| + |tag| + |question| + 3
    case SuffixMode => |root| + |question| + |tag| + 3
    case BothModes => |root| + |tag| + |question| + |tag| + 4
  }

  /** `child` begins with `parent` and a slash. */
  predicate IsChildPath(child: string, parent: string) {
    |child| > |parent| && child[..|parent|] == parent && child[|parent|] == '/'
  }

  /** `child` names an entry directly inside `parent`: no further slash follows the parent's one. */
  predicate DirectlyInside(child: string, parent: string) {
    IsChildPath(child, parent) && '/' !in child[|parent| + 1..]
  }

  /**
   The directory for one answered question inside `root`: root, a slash,
   then the label and the question joined as the mode says. The formatted
   text plus its terminator fills the allocated buffer exactly.
   */
  function CharacteristicPath(
    root: string, question: string, answer: bool,
    trueText: string, falseText: string, mode: ConcatMode): string
  {
    root + "/" + Segment(Label(answer, trueText, falseText), question, mode)
  }

  /**
   A characteristic directory begins with `root` and a slash, its name is
   the joined label and question, and the text plus its terminator fills the
   allocated buffer exactly. The names are inserted verbatim, so the
   directory is directly inside `root` exactly when neither the label nor
   the question contains a slash.
   */
  lemma CharacteristicPathShape(
    root: string, question: string, answer: bool,
    trueText: string, falseText: string, mode: ConcatMode)
    ensures var p := CharacteristicPath(root, question, answer, trueText, falseText, mode);
            && |p| + 1 == AllocatedSize(root, question, Label(answer, trueText, falseText), mode)
            && IsChildPath(p, root)
            && p[|root| + 1..] == Segment(Label(answer, trueText, falseText), question, mode)
            && (DirectlyInside(p, root) <==> '/' !in Label(answer, trueText, falseText) && '/' !in question)
  {
    var p := CharacteristicPath(root, question, answer, trueText, falseText, mode);
    assert p[..|root|] == root;
    assert p[|root| + 1..] == Segment(Label(answer, trueText, falseText), question, mode);
  }

  /**
   Distinct answer labels give distinct sibling directories: the yes and the
   no branch of a question never collapse into one directory.
   */
  lemma SiblingBranchesDiffer(root: string, question: string, trueText: string, falseText: string, mode: ConcatMode)
    requires trueText != falseText
    ensures CharacteristicPath(root, question, true, trueText, falseText, mode)
         != CharacteristicPath(root, question, false, trueText, falseText, mode)
  {
    var yes := CharacteristicPath(root, question, true, trueText, falseText, mode);
    var no := CharacteristicPath(root, question, false, trueText, falseText, mode);
    SegmentsDiffer(trueText, falseText, question, mode);
    CharacteristicPathShape(root, question, true, trueText, falseText, mode);
    CharacteristicPathShape(root, question, false, trueText, falseText, mode);
    assert yes[|root| + 1..] != no[|root| + 1..];
  }

  /** Different labels give different directory names for the same question, in every mode. */
  lemma SegmentsDiffer(t: string, f: string, question: string, mode: ConcatMode)
    requires t != f
    ensures Segment(t, question, mode) != Segment(f, question, mode)
  {
    var a := Segment(t, question, mode);
    var b := Segment(f, question, mode);
    if |t| == |f| {
      var i :| 0 <= i < |t| && t[i] != f[i];
      match mode
      case PrefixMode =>
        assert a[i] == t[i] && b[i] == f[i];
      case SuffixMode =>
        assert a[|question| + 1 + i] == t[i] && b[|question| + 1 + i] == f[i];
      case BothModes =>
        assert a[i] == t[i] && b[i] == f[i];
    } else {
      assert |a| - |b| != 0;
    }
  }

  /**
   The species' answer to a question: the answer of its first characteristic
   with exactly that question text, or None when it has none.
   */
  function Lookup(cs: seq<Characteristic>, question: string): Option<bool>
  {
    if |cs| == 0 then None
    else if cs[0].question == question then Some(cs[0].answer)
    else Lookup(cs[1..], question)
  }

  /**
   Lookup finds nothing exactly when no characteristic carries the
   question, and otherwise the answer of the first one that does.
   */
  lemma {:induction false} LookupFindsFirst(cs: seq<Characteristic>, question: string)
    ensures Lookup(cs, question).None? <==> forall j :: 0 <= j < |cs| ==> cs[j].question != question
    ensures Lookup(cs, question).Some? ==>
              exists j :: 0 <= j < |cs| && cs[j] == Characteristic(question, Lookup(cs, question).value)
                          && forall k :: 0 <= k < j ==> cs[k].question != question
  {
    if |cs| > 0 && cs[0].question != question {
      LookupFindsFirst(cs[1..], question);
      var r := Lookup(cs[1..], question);
      if r.Some? {
        var j :| 0 <= j < |cs[1..]| && cs[1..][j] == Characteristic(question, r.value)
                 && forall k :: 0 <= k < j ==> cs[1..][k].question != question;
        assert cs[j + 1] == Characteristic(question, r.value);
        assert forall k :: 1 <= k < j + 1 ==> cs[k] == cs[1..][k - 1];
      } else {
        assert forall j :: 1 <= j < |cs| ==> cs[j] == cs[1..][j - 1];
      }
    } else if |cs| > 0 {
      assert cs[0] == Characteristic(question, cs[0].answer);
    }
  }

  /** The inner search of the program: scan the characteristics for the question. */
  method FindAnswer(s: Species, question: string) returns (found: bool, answer: bool)
    ensures found <==> Lookup(s.characteristics, question).Some?
    ensures found ==> answer == Lookup(s.characteristics, question).value
  {
    var cs := s.characteristics;
    var j := 0;
    while j < |cs|
      invariant 0 <= j <= |cs|
      invariant Lookup(cs, question) == Lookup(cs[j..], question)
    {
      assert cs[j..][1..] == cs[j + 1..];
      if cs[j].question == question {
        return true, cs[j].answer;
      }
      j := j + 1;
    }
    return false, false;
  }

  /** The canonical questions the species answers, in canonical order. */
  function Answered(s: Species, questions: seq<string>): seq<string>
  {
    if |questions| == 0 then []
    else
      var rest := Answered(s, questions[1..]);
      if Lookup(s.characteristics, questions[0]).Some? then [questions[0]] + rest else rest
  }

  /** The answered questions are exactly the canonical questions the species has an answer for. */
  lemma {:induction false} AnsweredMembers(s: Species, questions: seq<string>)
    ensures |Answered(s, questions)| <= |questions|
    ensures forall q :: q in Answered(s, questions) <==> q in questions && Lookup(s.characteristics, q).Some?
  {
    if |questions| > 0 {
      AnsweredMembers(s, questions[1..]);
      assert questions == [questions[0]] + questions[1..];
    }
  }

  /** The directory a chain ends in: its last element, or `start` for an empty chain. */
  function FinalDirectory(start: string, dirs: seq<string>): string {
    if |dirs| == 0 then start else dirs[|dirs| - 1]
  }

  /**
   Path synthesis: from `current`, each canonical question the species
   answers adds one nested directory named by its label and text; questions
   it lacks add nothing. Each directory is built on the previous one.
   */
  function Walk(s: Species, current: string, questions: seq<string>, cfg: Config): seq<string>
    decreases |questions|
  {
    if |questions| == 0 then []
    else
      match Lookup(s.characteristics, questions[0])
      case None => Walk(s, current, questions[1..], cfg)
      case Some(a) =>
        var d := CharacteristicPath(current, questions[0], a, cfg.trueText, cfg.falseText, cfg.concatMode);
        [d] + Walk(s, d, questions[1..], cfg)
  }

  /** The directory level i of a chain is made in: `start` for the first level, the level before otherwise. */
  function Enclosing(start: string, dirs: seq<string>, i: nat): string
    requires i < |dirs|
  {
    if i == 0 then start else dirs[i - 1]
  }

  /**
   Shape of a synthesized chain: one directory per canonical question the
   species answers, in canonical order. Level i is the characteristic
   directory, inside the level before it (inside `current` for the first),
   for the i-th answered question and the species' answer to it; so each
   level begins with the one before and a slash, and is named by that
   answer's label joined with the question.
   */
  lemma {:induction false} WalkShape(s: Species, current: string, questions: seq<string>, cfg: Config)
    ensures var dirs := Walk(s, current, questions, cfg);
            var answered := Answered(s, questions);
            && |dirs| == |answered|
            && (forall i :: 0 <= i < |dirs| ==>
                  && Lookup(s.characteristics, answered[i]).Some?
                  && dirs[i] == CharacteristicPath(Enclosing(current, dirs, i), answered[i],
                                  Lookup(s.characteristics, answered[i]).value,
                                  cfg.trueText, cfg.falseText, cfg.concatMode)
                  && IsChildPath(dirs[i], Enclosing(current, dirs, i)))
    decreases |questions|
  {
    if |questions| > 0 {
      var rest := Answered(s, questions[1..]);
      match Lookup(s.characteristics, questions[0])
      case None =>
        WalkShape(s, current, questions[1..], cfg);
      case Some(a) =>
        var d := CharacteristicPath(current, questions[0], a, cfg.trueText, cfg.falseText, cfg.concatMode);
        CharacteristicPathShape(current, questions[0], a, cfg.trueText, cfg.falseText, cfg.concatMode);
        WalkShape(s, d, questions[1..], cfg);
        var tail := Walk(s, d, questions[1..], cfg);
        var dirs := [d] + tail;
        var answered := [questions[0]] + rest;
        forall i | 0 < i < |dirs|
          ensures Lookup(s.characteristics, answered[i]).Some?
          ensures dirs[i] == CharacteristicPath(Enclosing(current, dirs, i), answered[i],
                               Lookup(s.characteristics, answered[i]).value,
                               cfg.trueText, cfg.falseText, cfg.concatMode)
          ensures IsChildPath(dirs[i], Enclosing(current, dirs, i))
        {
          assert dirs[i] == tail[i - 1] && answered[i] == rest[i - 1];
          assert Enclosing(current, dirs, i) == Enclosing(d, tail, i - 1);
        }
    }
  }

  /**
   When neither label nor any canonical question contains a slash, every
   level of a chain is directly inside the level before it (the first
   directly inside `current`).
   */
  lemma WalkLevelsDirectlyInside(s: Species, current: string, questions: seq<string>, cfg: Config)
    requires '/' !in cfg.trueText && '/' !in cfg.falseText
    requires forall q :: q in questions ==> '/' !in q
    ensures var dirs := Walk(s, current, questions, cfg);
            forall i :: 0 <= i < |dirs| ==> DirectlyInside(dirs[i], Enclosing(current, dirs, i))
  {
    var dirs := Walk(s, current, questions, cfg);
    var answered := Answered(s, questions);
    WalkShape(s, current, questions, cfg);
    AnsweredMembers(s, questions);
    forall i | 0 <= i < |dirs|
      ensures DirectlyInside(dirs[i], Enclosing(current, dirs, i))
    {
      assert answered[i] in answered;
      var a := Lookup(s.characteristics, answered[i]).value;
      CharacteristicPathShape(Enclosing(current, dirs, i), answered[i], a, cfg.trueText, cfg.falseText, cfg.concatMode);
    }
  }

  /**
   `<dir>/<name>.txt`, filling the allocated buffer of |dir| + |name| + 6
   exactly; directly inside `dir` exactly when the name has no slash.
   */
  function LeafPath(dir: string, name: string): (p: string)
    ensures |p| + 1 == |dir| + |name| + 6
    ensures IsChildPath(p, dir) && p[|dir| + 1..] == name + ".txt"
    ensures DirectlyInside(p, dir) <==> '/' !in name
  {
    dir + "/" + name + ".txt"
  }

  /** Where a species' leaf file goes. */
  function SpeciesLeaf(s: Species, root: string, questions: seq<string>, cfg: Config): string {
    LeafPath(FinalDirectory(root, Walk(s, root, questions, cfg)), s.name)
  }

  /** A species that answers no canonical question gets its leaf at `<root>/<name>.txt`. */
  lemma {:induction false} UnmatchedSpeciesLandsInRoot(s: Species, root: string, questions: seq<string>, cfg: Config)
    requires forall q :: q in questions ==> Lookup(s.characteristics, q).None?
    ensures Walk(s, root, questions, cfg) == []
    ensures SpeciesLeaf(s, root, questions, cfg) == root + "/" + s.name + ".txt"
    decreases |questions|
  {
    if |questions| > 0 {
      assert questions[0] in questions;
      forall q | q in questions[1..]
        ensures Lookup(s.characteristics, q).None?
      {
        assert q in questions;
      }
      UnmatchedSpeciesLandsInRoot(s, root, questions[1..], cfg);
    }
  }

  /** A walk splits at any point of the question list. */
  lemma {:induction false} WalkSplit(s: Species, current: string, questions: seq<string>, k: nat, cfg: Config)
    requires k <= |questions|
    ensures var head := Walk(s, current, questions[..k], cfg);
            Walk(s, current, questions, cfg) == head + Walk(s, FinalDirectory(current, head), questions[k..], cfg)
    decreases k
  {
    if k == 0 {
      assert questions[..0] == [] && questions[0..] == questions;
    } else {
      var tl := questions[1..];
      assert questions[..k][0] == questions[0] && questions[..k][1..] == tl[..k - 1];
      assert questions[k..] == tl[k - 1..];
      match Lookup(s.characteristics, questions[0])
      case None =>
        assert Walk(s, current, questions, cfg) == Walk(s, current, tl, cfg);
        assert Walk(s, current, questions[..k], cfg) == Walk(s, current, tl[..k - 1], cfg);
        WalkSplit(s, current, tl, k - 1, cfg);
      case Some(a) =>
        var d := CharacteristicPath(current, questions[0], a, cfg.trueText, cfg.falseText, cfg.concatMode);
        assert Walk(s, current, questions, cfg) == [d] + Walk(s, d, tl, cfg);
        var head := Walk(s, d, tl[..k - 1], cfg);
        assert Walk(s, current, questions[..k], cfg) == [d] + head;
        WalkSplit(s, d, tl, k - 1, cfg);
        var last := FinalDirectory(d, head);
        var after := Walk(s, last, tl[k - 1..], cfg);
        assert Walk(s, d, tl, cfg) == head + after;
        assert FinalDirectory(current, [d] + head) == last;
        AppendAssociative([d], head, after);
    }
  }

  /**
   Two species that give the same answers (or both none) to the first k
   canonical questions share the directories those questions produce: both
   chains start with the same k-question walk.
   */
  lemma {:induction false} SharedAnswersShareDirectories(
    a: Species, b: Species, root: string, questions: seq<string>, k: nat, cfg: Config)
    requires k <= |questions|
    requires forall i :: 0 <= i < k ==> Lookup(a.characteristics, questions[i]) == Lookup(b.characteristics, questions[i])
    ensures Walk(a, root, questions[..k], cfg) == Walk(b, root, questions[..k], cfg)
    ensures IsPrefix(Walk(a, root, questions[..k], cfg), Walk(a, root, questions, cfg))
    ensures IsPrefix(Walk(b, root, questions[..k], cfg), Walk(b, root, questions, cfg))
  {
    WalkSameAnswers(a, b, root, questions[..k], cfg);
    WalkSplit(a, root, questions, k, cfg);
    WalkSplit(b, root, questions, k, cfg);
  }

  lemma {:induction false} WalkSameAnswers(a: Species, b: Species, current: string, questions: seq<string>, cfg: Config)
    requires forall i :: 0 <= i < |questions| ==> Lookup(a.characteristics, questions[i]) == Lookup(b.characteristics, questions[i])
    ensures Walk(a, current, questions, cfg) == Walk(b, current, questions, cfg)
    decreases |questions|
  {
    if |questions| > 0 {
      assert Lookup(a.characteristics, questions[0]) == Lookup(b.characteristics, questions[0]);
      match Lookup(a.characteristics, questions[0])
      case None =>
        WalkSameAnswers(a, b, current, questions[1..], cfg);
      case Some(x) =>
        var d := CharacteristicPath(current, questions[0], x, cfg.trueText, cfg.falseText, cfg.concatMode);
        WalkSameAnswers(a, b, d, questions[1..], cfg);
    }
  }
}
