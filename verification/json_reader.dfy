/**
 The recursive-descent reader of the key loader. It accepts the shape
   { "<tree name>" : [ { "<species name>" : [ { "<question>" : true|false }, ... ] }, ... ] }
 builds the tree species by species and characteristic by characteristic in
 source order, and finishes with question extraction. Any token out of place
 makes the whole load fail. A comma before a closing bracket is tolerated,
 and nothing after the final brace is looked at.
 */
module JsonReader {
  import opened Types
  import opened SpeciesDomain
  import opened TreeDomain
  import opened JsonLexer

  /** The reader's state: the text, the position after the current token, and that token. */
  datatype Parser = Parser(json: string, pos: nat, tok: Token)

  predicate Valid(ps: Parser) {
    ps.pos <= |ps.json| && WellFormed(ps.tok)
  }

  /** The state after reading one token from position `pos`. */
  function ReadFrom(json: string, pos: nat): (ps: Parser)
    requires pos <= |json|
    ensures Valid(ps) && ps.json == json && pos <= ps.pos
    ensures ps.tok.kind == StringToken ==> pos < ps.pos
  {
    var (tok, next) := NextToken(json, pos);
    Parser(json, next, tok)
  }

  /** Moves to the next token. */
  function Advance(ps: Parser): (r: Parser)
    requires Valid(ps)
    ensures Valid(r) && r.json == ps.json && ps.pos <= r.pos
    ensures r.tok.kind == StringToken ==> ps.pos < r.pos
  {
    ReadFrom(ps.json, ps.pos)
  }

  /** The length of the text as a C string: everything before the first NUL character. */
  function CLength(text: string): (n: nat)
    ensures n <= |text|
    ensures forall i :: 0 <= i < n ==> text[i] != '\0'
    ensures n < |text| ==> text[n] == '\0'
  {
    if |text| == 0 || text[0] == '\0' then 0 else 1 + CLength(text[1..])
  }

  /** The reader over a text, with the first token read. */
  function Init(text: string): Parser {
    ReadFrom(text[..CLength(text)], 0)
  }

  /** Consumes the current token if it has the given kind; fails without moving otherwise. */
  function Expect(ps: Parser, kind: TokenType): (r: Option<Parser>)
    requires Valid(ps)
    ensures r.Some? <==> ps.tok.kind == kind
    ensures r.Some? ==> Valid(r.value) && r.value.json == ps.json && ps.pos <= r.value.pos
  {
    if ps.tok.kind != kind then None else Some(Advance(ps))
  }

  /** The answer a literal stands for, consuming it: only `true` reads as true. */
  function ParseBoolean(ps: Parser): (r: (bool, Parser))
    requires Valid(ps)
  {
    (ps.tok.kind == TrueToken, Advance(ps))
  }

  /**
   The rest of a `{ "<question>" : true|false }` object once its key is
   read: a colon, a boolean literal, and the closing brace.
   */
  function ParseAnswer(ps: Parser): (r: Option<(bool, Parser)>)
    requires Valid(ps)
    ensures r.Some? ==> Valid(r.value.1) && r.value.1.json == ps.json && ps.pos <= r.value.1.pos
  {
    match Expect(ps, Colon)
    case None => None
    case Some(p3) =>
      if p3.tok.kind != TrueToken && p3.tok.kind != FalseToken then None
      else
        var (answer, p4) := ParseBoolean(p3);
        match Expect(p4, ObjectEnd)
        case None => None
        case Some(p5) => Some((answer, p5))
  }

  /**
   One `{ "<question>" : true|false }` object, its opening brace being the
   current token: the key must be a string, then the answer follows.
   */
  function ParseEntry(ps: Parser): (r: Option<(Characteristic, Parser)>)
    requires Valid(ps) && ps.tok.kind == ObjectStart
    ensures r.Some? ==> Valid(r.value.1) && r.value.1.json == ps.json && ps.pos < r.value.1.pos
  {
    var p1 := Advance(ps);
    if p1.tok.kind != StringToken then None
    else
      match ParseAnswer(Advance(p1))
      case None => None
      case Some((answer, p5)) => Some((Characteristic(p1.tok.value.value, answer), p5))
  }

  /**
   The characteristics loop: while the current token opens an object, read
   an entry and append it; after each entry a comma continues and a closing
   bracket ends the list (left as the current token).
   */
  function ParseCharacteristics(ps: Parser, sp: Species): (r: Option<(Species, Parser)>)
    requires Valid(ps)
    ensures r.Some? ==> Valid(r.value.1) && r.value.1.json == ps.json && ps.pos <= r.value.1.pos
    ensures r.Some? ==> r.value.0.name == sp.name
    decreases |ps.json| - ps.pos
  {
    if ps.tok.kind != ObjectStart then Some((sp, ps))
    else
      match ParseEntry(ps)
      case None => None
      case Some((c, p5)) =>
        var sp' := AddCharacteristic(Some(sp), Some(c.question), c.answer).1.value;
        if p5.tok.kind == Comma then ParseCharacteristics(Advance(p5), sp')
        else if p5.tok.kind == ArrayEnd then Some((sp', p5))
        else None
  }

  /** The characteristics loop only appends: what the species held before is kept, in place. */
  lemma {:induction false} CharacteristicsOnlyAppend(ps: Parser, sp: Species)
    requires Valid(ps)
    ensures var r := ParseCharacteristics(ps, sp);
            r.Some? ==> IsPrefix(sp.characteristics, r.value.0.characteristics)
    decreases |ps.json| - ps.pos
  {
    if ps.tok.kind == ObjectStart {
      match ParseEntry(ps)
      case None =>
      case Some((c, p5)) =>
        var sp' := AddCharacteristic(Some(sp), Some(c.question), c.answer).1.value;
        if p5.tok.kind == Comma {
          CharacteristicsOnlyAppend(Advance(p5), sp');
          var r := ParseCharacteristics(Advance(p5), sp');
          if r.Some? {
            PrefixTransitive(sp.characteristics, sp'.characteristics, r.value.0.characteristics);
          }
        }
    }
  }

  /** A species' characteristic array `[ ... ]`, giving a species with the given name. */
  function ParseSpecies(ps: Parser, name: string): (r: Option<(Species, Parser)>)
    requires Valid(ps)
    ensures r.Some? ==> Valid(r.value.1) && r.value.1.json == ps.json && ps.pos <= r.value.1.pos
    ensures r.Some? ==> r.value.0.name == name
  {
    match Expect(ps, ArrayStart)
    case None => None
    case Some(p1) =>
      match ParseCharacteristics(p1, SpeciesDomain.Create(name))
      case None => None
      case Some((sp, p2)) =>
        match Expect(p2, ArrayEnd)
        case None => None
        case Some(p3) => Some((sp, p3))
  }

  /** One `{ "<species name>" : [ ... ] }` object, its opening brace being the current token. */
  function ParseSpeciesEntry(ps: Parser): (r: Option<(Species, Parser)>)
    requires Valid(ps) && ps.tok.kind == ObjectStart
    ensures r.Some? ==> Valid(r.value.1) && r.value.1.json == ps.json && ps.pos < r.value.1.pos
  {
    var p1 := Advance(ps);
    if p1.tok.kind != StringToken then None
    else
      var name := p1.tok.value.value;
      match Expect(Advance(p1), Colon)
      case None => None
      case Some(p3) =>
        match ParseSpecies(p3, name)
        case None => None
        case Some((s, p4)) =>
          match Expect(p4, ObjectEnd)
          case None => None
          case Some(p5) => Some((s, p5))
  }

  /** The species loop, shaped like the characteristics loop. */
  function ParseSpeciesList(ps: Parser, t: Tree): (r: Option<(Tree, Parser)>)
    requires Valid(ps)
    ensures r.Some? ==> Valid(r.value.1) && r.value.1.json == ps.json && ps.pos <= r.value.1.pos
    ensures r.Some? ==> r.value.0.name == t.name
    decreases |ps.json| - ps.pos
  {
    if ps.tok.kind != ObjectStart then Some((t, ps))
    else
      match ParseSpeciesEntry(ps)
      case None => None
      case Some((s, p5)) =>
        var t' := AddSpecies(t, Some(s)).1;
        if p5.tok.kind == Comma then ParseSpeciesList(Advance(p5), t')
        else if p5.tok.kind == ArrayEnd then Some((t', p5))
        else None
  }

  /** The species loop only appends: the species already in the tree are kept, in place. */
  lemma {:induction false} SpeciesOnlyAppend(ps: Parser, t: Tree)
    requires Valid(ps)
    ensures var r := ParseSpeciesList(ps, t);
            r.Some? ==> IsPrefix(t.species, r.value.0.species)
    decreases |ps.json| - ps.pos
  {
    if ps.tok.kind == ObjectStart {
      match ParseSpeciesEntry(ps)
      case None =>
      case Some((s, p5)) =>
        var t' := AddSpecies(t, Some(s)).1;
        if p5.tok.kind == Comma {
          SpeciesOnlyAppend(Advance(p5), t');
          var r := ParseSpeciesList(Advance(p5), t');
          if r.Some? {
            PrefixTransitive(t.species, t'.species, r.value.0.species);
          }
        }
    }
  }

  /**
   The whole document: an object whose single key is the tree name and whose
   value is the species array; the questions are extracted at the end, so a
   tree without species is refused.
   */
  function ParseTree(ps: Parser): Option<Tree>
    requires Valid(ps)
  {
    match Expect(ps, ObjectStart)
    case None => None
    case Some(p1) =>
      if p1.tok.kind != StringToken then None
      else
        match Expect(Advance(p1), Colon)
        case None => None
        case Some(p3) => ParseTreeValue(p3, p1.tok.value.value)
  }

  /** The species array of the document and its closing brace, for a tree of the given name. */
  function ParseTreeValue(ps: Parser, name: string): Option<Tree>
    requires Valid(ps)
  {
    match Expect(ps, ArrayStart)
    case None => None
    case Some(p4) =>
      match ParseSpeciesList(p4, TreeDomain.Create(name))
      case None => None
      case Some((t, p5)) =>
        match Expect(p5, ArrayEnd)
        case None => None
        case Some(p6) =>
          match Expect(p6, ObjectEnd)
          case None => None
          case Some(_) => Extracted(t)
  }

  // ---------------------------------------------------------------------------
  // What the reader refuses
  // ---------------------------------------------------------------------------

  /**
   An answer is accepted exactly when it is a colon, a boolean literal and a
   closing brace; the answer is true exactly for the literal `true`.
   */
  lemma AnswerShape(ps: Parser)
    requires Valid(ps)
    ensures var p3 := Advance(ps);
            var p4 := Advance(p3);
            && (ParseAnswer(ps).Some? <==>
                  ps.tok.kind == Colon && (p3.tok.kind == TrueToken || p3.tok.kind == FalseToken) && p4.tok.kind == ObjectEnd)
            && (ParseAnswer(ps).Some? ==> ParseAnswer(ps).value == (p3.tok.kind == TrueToken, Advance(p4)))
  {
  }

  /**
   An entry `{ "<question>" : true|false }` is accepted exactly when its key
   is a string, followed by a colon, a boolean literal and a closing brace; a
   non-string key, a missing colon or brace, or a non-boolean answer refuses it.
   */
  lemma EntryShape(ps: Parser)
    requires Valid(ps) && ps.tok.kind == ObjectStart
    ensures var p1 := Advance(ps);
            var p2 := Advance(p1);
            var p3 := Advance(p2);
            var p4 := Advance(p3);
            && (ParseEntry(ps).Some? <==>
                  && p1.tok.kind == StringToken && p2.tok.kind == Colon
                  && (p3.tok.kind == TrueToken || p3.tok.kind == FalseToken) && p4.tok.kind == ObjectEnd)
            && (ParseEntry(ps).Some? ==>
                  ParseEntry(ps).value == (Characteristic(p1.tok.value.value, p3.tok.kind == TrueToken), Advance(p4)))
  {
    hide ParseAnswer;
    var p1 := Advance(ps);
    if p1.tok.kind == StringToken {
      AnswerShape(Advance(p1));
    }
  }

  /**
   The characteristics loop refuses the array when an entry is refused, or
   when an entry is followed by anything but a comma or a closing bracket.
   */
  lemma CharacteristicsShape(ps: Parser, sp: Species)
    requires Valid(ps) && ps.tok.kind == ObjectStart
    ensures ParseCharacteristics(ps, sp).Some? ==>
              && ParseEntry(ps).Some?
              && (ParseEntry(ps).value.1.tok.kind == Comma || ParseEntry(ps).value.1.tok.kind == ArrayEnd)
  {
    hide ParseEntry, Advance;
  }

  /** A characteristic array is accepted only when it opens with `[` and its loop ends on `]`. */
  lemma SpeciesShape(ps: Parser, name: string)
    requires Valid(ps)
    ensures ParseSpecies(ps, name).Some? <==>
              && ps.tok.kind == ArrayStart
              && ParseCharacteristics(Advance(ps), SpeciesDomain.Create(name)).Some?
              && ParseCharacteristics(Advance(ps), SpeciesDomain.Create(name)).value.1.tok.kind == ArrayEnd
  {
    hide ParseCharacteristics, Advance;
  }

  /**
   A species object is accepted only when its name is a string, followed by
   a colon and a characteristic array; the species carries that name.
   */
  lemma SpeciesEntryShape(ps: Parser)
    requires Valid(ps) && ps.tok.kind == ObjectStart
    ensures var p1 := Advance(ps);
            var p2 := Advance(p1);
            ParseSpeciesEntry(ps).Some? ==>
              && p1.tok.kind == StringToken && p2.tok.kind == Colon
              && ParseSpecies(Advance(p2), p1.tok.value.value).Some?
              && ParseSpeciesEntry(ps).value.0.name == p1.tok.value.value
  {
    hide ParseSpecies;
  }

  /**
   The species loop refuses the array when a species is refused, or when a
   species is followed by anything but a comma or a closing bracket.
   */
  lemma SpeciesListShape(ps: Parser, t: Tree)
    requires Valid(ps) && ps.tok.kind == ObjectStart
    ensures ParseSpeciesList(ps, t).Some? ==>
              && ParseSpeciesEntry(ps).Some?
              && (ParseSpeciesEntry(ps).value.1.tok.kind == Comma || ParseSpeciesEntry(ps).value.1.tok.kind == ArrayEnd)
  {
    hide ParseSpeciesEntry, Advance;
  }

  /**
   The species array of a document is accepted only when it opens with `[`,
   its loop ends on `]`, a closing brace follows, and it holds a species;
   the tree carries the given name.
   */
  lemma TreeValueShape(ps: Parser, name: string)
    requires Valid(ps)
    ensures var l := ParseSpeciesList(Advance(ps), TreeDomain.Create(name));
            ParseTreeValue(ps, name).Some? ==>
              && ps.tok.kind == ArrayStart
              && l.Some? && l.value.1.tok.kind == ArrayEnd && Advance(l.value.1).tok.kind == ObjectEnd
              && |l.value.0.species| > 0
              && ParseTreeValue(ps, name).value.name == name
  {
    hide ParseSpeciesList, Advance;
    var l := ParseSpeciesList(Advance(ps), TreeDomain.Create(name));
    if ParseTreeValue(ps, name).Some? {
      assert l.Some? && l.value.0.name == name;
    }
  }

  /**
   A document is refused unless it opens with `{`, then a string (the tree
   name), a colon and `[`; the tree carries that name.
   */
  lemma TreeShape(ps: Parser)
    requires Valid(ps)
    ensures var p1 := Advance(ps);
            var p2 := Advance(p1);
            var p3 := Advance(p2);
            ParseTree(ps).Some? ==>
              && ps.tok.kind == ObjectStart && p1.tok.kind == StringToken && p2.tok.kind == Colon
              && p3.tok.kind == ArrayStart
              && ParseTree(ps).value.name == p1.tok.value.value
  {
    hide ParseTreeValue, Advance;
    var p1 := Advance(ps);
    var p2 := Advance(p1);
    if ParseTree(ps).Some? {
      TreeValueShape(Advance(p2), p1.tok.value.value);
    }
  }

  /**
   A text whose first token is not `{`, whose second is not a string, whose
   third is not a colon, or whose fourth is not `[` loads as nothing; what
   loads is named by the second token.
   */
  lemma LoadRejectsMalformedHead(text: string)
    ensures var p0 := Init(text);
            var p1 := Advance(p0);
            var p2 := Advance(p1);
            var p3 := Advance(p2);
            && (p0.tok.kind != ObjectStart ==> Load(text).None?)
            && (p1.tok.kind != StringToken ==> Load(text).None?)
            && (p2.tok.kind != Colon ==> Load(text).None?)
            && (p3.tok.kind != ArrayStart ==> Load(text).None?)
            && (Load(text).Some? ==> Load(text).value.name == p1.tok.value.value)
  {
    hide ParseTree, Advance;
    TreeShape(Init(text));
  }

  /** Loads a key from its text. */
  function Load(text: string): Option<Tree> {
    ParseTree(Init(text))
  }

  /**
   Any key the reader accepts has at least one species, and its question
   list is the extracted one: every question of every species once, in
   first-seen order, without duplicates.
   */
  lemma {:induction false} LoadedTreeIsExtracted(text: string)
    ensures var r := Load(text);
            r.Some? ==>
              && |r.value.species| > 0
              && r.value.questions == FirstSeen(AllQuestions(r.value.species))
              && NoDuplicates(r.value.questions)
              && (forall q :: q in r.value.questions <==> q in AllQuestions(r.value.species))
  {
    var r := Load(text);
    if r.Some? {
      ParsedTreeIsExtracted(Init(text));
      FirstSeenNoDuplicates(AllQuestions(r.value.species));
      FirstSeenSameElements(AllQuestions(r.value.species));
    }
  }

  /** What the reader returns is always the outcome of question extraction. */
  lemma ParsedTreeIsExtracted(ps: Parser)
    requires Valid(ps)
    ensures var r := ParseTree(ps);
            r.Some? ==> |r.value.species| > 0 && r.value.questions == FirstSeen(AllQuestions(r.value.species))
  {
  }

  // ---------------------------------------------------------------------------
  // Rendering, and reading a rendered key back
  // ---------------------------------------------------------------------------

  /** Text the reader takes verbatim inside quotes: no quote, no backslash, no NUL. */
  predicate Plain(s: string) {
    forall i :: 0 <= i < |s| ==> s[i] != '"' && s[i] != '\\' && s[i] != '\0'
  }

  predicate PlainSpecies(s: Species) {
    Plain(s.name) && forall i :: 0 <= i < |s.characteristics| ==> Plain(s.characteristics[i].question)
  }

  function Quote(s: string): string {
    "\"" + s + "\""
  }

  function BoolText(b: bool): string {
    if b then "true" else "false"
  }

  function RenderEntry(c: Characteristic): string {
    "{" + Quote(c.question) + ":" + BoolText(c.answer) + "}"
  }

  /** Entries separated by commas. */
  function RenderEntries(cs: seq<Characteristic>): string
  {
    if |cs| == 0 then ""
    else if |cs| == 1 then RenderEntry(cs[0])
    else RenderEntry(cs[0]) + "," + RenderEntries(cs[1..])
  }

  function RenderSpecies(s: Species): string {
    "{" + Quote(s.name) + ":[" + RenderEntries(s.characteristics) + "]}"
  }

  function RenderSpeciesList(species: seq<Species>): string
  {
    if |species| == 0 then ""
    else if |species| == 1 then RenderSpecies(species[0])
    else RenderSpecies(species[0]) + "," + RenderSpeciesList(species[1..])
  }

  /** The compact text of a key with the given name and species. */
  function RenderTree(name: string, species: seq<Species>): string {
    "{" + Quote(name) + ":[" + RenderSpeciesList(species) + "]}"
  }

  /** `piece` occurs in `json` starting at `p`. */
  predicate At(json: string, p: nat, piece: string) {
    p + |piece| <= |json| && json[p..p + |piece|] == piece
  }

  lemma AtSplit(json: string, p: nat, a: string, b: string)
    requires At(json, p, a + b)
    ensures At(json, p, a) && At(json, p + |a|, b)
  {
    assert json[p..p + |a|] == (a + b)[..|a|];
    assert json[p + |a|..p + |a| + |b|] == (a + b)[|a|..];
  }

  /** A punctuation character in the text reads as its token. */
  lemma ReadPunctuation(json: string, p: nat, c: char)
    requires At(json, p, [c]) && PunctuationKind(c).Some?
    ensures p < |json| && ReadFrom(json, p) == Parser(json, p + 1, Token(PunctuationKind(c).value, None))
  {
    assert json[p] == json[p..p + 1][0] == c;
    assert SkipSpace(json, p) == p;
    PunctuationToken(json, p);
  }

  /** Where the parts of a quoted string lie. */
  lemma QuoteLayout(json: string, p: nat, s: string)
    requires At(json, p, Quote(s))
    ensures At(json, p, "\"") && At(json, p + 1, s) && At(json, p + 1 + |s|, "\"")
  {
    AtSplit(json, p, "\"" + s, "\"");
    AtSplit(json, p, "\"", s);
  }

  /** A plain string in quotes reads as a string token with exactly that value. */
  lemma ReadQuoted(json: string, p: nat, s: string)
    requires Plain(s) && At(json, p, Quote(s))
    ensures ReadFrom(json, p) == Parser(json, p + |s| + 2, Token(StringToken, Some(s)))
  {
    QuoteLayout(json, p, s);
    assert json[p] == json[p..p + 1][0] == '"';
    assert json[p + 1 + |s|] == json[p + 1 + |s|..p + 2 + |s|][0] == '"';
    assert SkipSpace(json, p) == p;
    PlainEscapesToItself(s);
    EscapeScanCopy(json, p + 1, s);
  }

  /** A plain string needs no escaping. */
  lemma {:induction false} PlainEscapesToItself(s: string)
    requires Plain(s)
    ensures Escape(s) == s
  {
    if |s| > 0 {
      assert Plain(s[1..]) by {
        assert forall i :: 0 <= i < |s[1..]| ==> s[1..][i] == s[i + 1];
      }
      PlainEscapesToItself(s[1..]);
      assert s == [s[0]] + s[1..];
    }
  }

  /** A boolean literal in the text reads as its token. */
  lemma ReadBoolean(json: string, p: nat, b: bool)
    requires At(json, p, BoolText(b))
    ensures ReadFrom(json, p) == Parser(json, p + |BoolText(b)|, Token(if b then TrueToken else FalseToken, None))
  {
    assert json[p] == BoolText(b)[0];
    assert SkipSpace(json, p) == p;
    if b {
      TrueKeyword(json, p);
    } else {
      FalseKeyword(json, p);
    }
  }

  /** A rendered answer `:true}` or `:false}` reads back as its value. */
  lemma ReadAnswer(json: string, p: nat, b: bool)
    requires At(json, p, ":" + BoolText(b) + "}")
    ensures ParseAnswer(ReadFrom(json, p)) == Some((b, ReadFrom(json, p + |BoolText(b)| + 2)))
  {
    hide ReadFrom;
    var bt := BoolText(b);
    AtSplit(json, p, ":" + bt, "}");
    AtSplit(json, p, ":", bt);
    ReadPunctuation(json, p, ':');
    ReadBoolean(json, p + 1, b);
    ReadPunctuation(json, p + 1 + |bt|, '}');
  }

  /** Where the parts of a rendered entry lie. */
  lemma EntryLayout(json: string, p: nat, c: Characteristic)
    requires At(json, p, RenderEntry(c))
    ensures At(json, p, "{") && At(json, p + 1, Quote(c.question))
    ensures At(json, p + |c.question| + 3, ":" + BoolText(c.answer) + "}")
    ensures |RenderEntry(c)| == |c.question| + |BoolText(c.answer)| + 5
  {
    var q := Quote(c.question);
    var tail := ":" + BoolText(c.answer) + "}";
    assert RenderEntry(c) == "{" + q + tail;
    AtSplit(json, p, "{" + q, tail);
    AtSplit(json, p, "{", q);
  }

  /** A rendered entry reads back as its characteristic, leaving the reader just past its closing brace. */
  lemma ReadEntry(json: string, p: nat, c: Characteristic)
    requires Plain(c.question) && At(json, p, RenderEntry(c))
    ensures ReadFrom(json, p).tok.kind == ObjectStart
    ensures ParseEntry(ReadFrom(json, p)) == Some((c, ReadFrom(json, p + |RenderEntry(c)|)))
  {
    hide ReadFrom, ParseAnswer;
    EntryLayout(json, p, c);
    ReadPunctuation(json, p, '{');
    ReadQuoted(json, p + 1, c.question);
    ReadAnswer(json, p + |c.question| + 3, c.answer);
  }

  /** Where the parts of `e,rest]` lie. */
  lemma ListLayout(json: string, p: nat, e: string, rest: string)
    requires At(json, p, e + "," + rest + "]")
    ensures At(json, p, e) && At(json, p + |e|, ",") && At(json, p + |e| + 1, rest + "]")
  {
    assert e + "," + rest + "]" == e + ("," + (rest + "]"));
    AtSplit(json, p, e, "," + (rest + "]"));
    AtSplit(json, p + |e|, ",", rest + "]");
  }

  /** Where the parts of `{<q>:[<body>]}` lie. */
  lemma ObjectLayout(json: string, p: nat, q: string, body: string)
    requires At(json, p, "{" + q + ":[" + body + "]}")
    ensures At(json, p, "{") && At(json, p + 1, q) && At(json, p + 1 + |q|, ":")
    ensures At(json, p + 2 + |q|, "[") && At(json, p + 3 + |q|, body + "]")
    ensures At(json, p + 3 + |q| + |body|, "]") && At(json, p + 4 + |q| + |body|, "}")
  {
    assert "{" + q + ":[" + body + "]}" == "{" + q + ":" + "[" + (body + "]") + "}";
    AtSplit(json, p, "{" + q + ":" + "[" + (body + "]"), "}");
    AtSplit(json, p, "{" + q + ":" + "[", body + "]");
    AtSplit(json, p, "{" + q + ":", "[");
    AtSplit(json, p, "{" + q, ":");
    AtSplit(json, p, "{", q);
    AtSplit(json, p + 3 + |q|, body, "]");
  }

  /** The first entry, the separating comma and the rest of a list of two or more entries. */
  lemma EntriesStep(cs: seq<Characteristic>)
    requires |cs| > 1
    ensures RenderEntries(cs) + "]" == RenderEntry(cs[0]) + "," + RenderEntries(cs[1..]) + "]"
    ensures |RenderEntries(cs)| == |RenderEntry(cs[0])| + 1 + |RenderEntries(cs[1..])|
  {
  }

  /** The characteristics loop ends, consuming nothing, when the current token does not open an object. */
  lemma CharacteristicsEnd(ps: Parser, sp: Species)
    requires Valid(ps) && ps.tok.kind != ObjectStart
    ensures ParseCharacteristics(ps, sp) == Some((sp, ps))
  {
  }

  /** One turn of the characteristics loop: an entry followed by a comma is appended and the loop goes on. */
  lemma CharacteristicsContinue(ps: Parser, sp: Species, c: Characteristic, p5: Parser)
    requires Valid(ps) && ps.tok.kind == ObjectStart && ParseEntry(ps) == Some((c, p5)) && p5.tok.kind == Comma
    ensures ParseCharacteristics(ps, sp) == ParseCharacteristics(Advance(p5), sp.(characteristics := sp.characteristics + [c]))
  {
    hide ParseEntry, Advance;
  }

  /** The last turn of the characteristics loop: an entry followed by a closing bracket is appended and the loop stops there. */
  lemma CharacteristicsStop(ps: Parser, sp: Species, c: Characteristic, p5: Parser)
    requires Valid(ps) && ps.tok.kind == ObjectStart && ParseEntry(ps) == Some((c, p5)) && p5.tok.kind == ArrayEnd
    ensures ParseCharacteristics(ps, sp) == Some((sp.(characteristics := sp.characteristics + [c]), p5))
  {
    hide ParseEntry, Advance;
  }

  /**
   A rendered list of entries followed by a closing bracket is read entry by
   entry, each appended in order, and the loop stops on that bracket.
   */
  lemma {:induction false} ReadEntries(json: string, p: nat, cs: seq<Characteristic>, sp: Species)
    requires forall i :: 0 <= i < |cs| ==> Plain(cs[i].question)
    requires At(json, p, RenderEntries(cs) + "]")
    ensures ParseCharacteristics(ReadFrom(json, p), sp)
              == Some((sp.(characteristics := sp.characteristics + cs), ReadFrom(json, p + |RenderEntries(cs)|)))
    decreases |cs|
  {
    hide ReadFrom, ParseEntry, At, RenderEntry, ParseCharacteristics;
    if |cs| == 0 {
      assert RenderEntries(cs) + "]" == "]";
      ReadPunctuation(json, p, ']');
      CharacteristicsEnd(ReadFrom(json, p), sp);
      assert sp.characteristics + cs == sp.characteristics;
    } else if |cs| == 1 {
      var e := RenderEntry(cs[0]);
      assert RenderEntries(cs) == e;
      AtSplit(json, p, e, "]");
      ReadEntry(json, p, cs[0]);
      ReadPunctuation(json, p + |e|, ']');
      CharacteristicsStop(ReadFrom(json, p), sp, cs[0], ReadFrom(json, p + |e|));
      assert cs == [cs[0]];
    } else {
      var sp' := sp.(characteristics := sp.characteristics + [cs[0]]);
      ReadFirstEntry(json, p, cs, sp);
      ReadEntries(json, p + |RenderEntry(cs[0])| + 1, cs[1..], sp');
      assert cs == [cs[0]] + cs[1..];
      AppendAssociative(sp.characteristics, [cs[0]], cs[1..]);
    }
  }

  /** The first of two or more rendered entries is read and appended, and the loop goes on just past the comma. */
  lemma ReadFirstEntry(json: string, p: nat, cs: seq<Characteristic>, sp: Species)
    requires |cs| > 1 && forall i :: 0 <= i < |cs| ==> Plain(cs[i].question)
    requires At(json, p, RenderEntries(cs) + "]")
    ensures var q := p + |RenderEntry(cs[0])| + 1;
            && q <= |json|
            && At(json, q, RenderEntries(cs[1..]) + "]")
            && (forall i :: 0 <= i < |cs[1..]| ==> Plain(cs[1..][i].question))
            && |RenderEntries(cs)| == |RenderEntry(cs[0])| + 1 + |RenderEntries(cs[1..])|
            && ParseCharacteristics(ReadFrom(json, p), sp)
                 == ParseCharacteristics(ReadFrom(json, q), sp.(characteristics := sp.characteristics + [cs[0]]))
  {
    hide ReadFrom, ParseEntry, At, RenderEntry, ParseCharacteristics, RenderEntries;
    var e := RenderEntry(cs[0]);
    EntriesStep(cs);
    ListLayout(json, p, e, RenderEntries(cs[1..]));
    ReadEntry(json, p, cs[0]);
    ReadPunctuation(json, p + |e|, ',');
    assert forall i :: 0 <= i < |cs[1..]| ==> cs[1..][i] == cs[i + 1];
    CharacteristicsContinue(ReadFrom(json, p), sp, cs[0], ReadFrom(json, p + |e|));
    assert Advance(ReadFrom(json, p + |e|)) == ReadFrom(json, p + |e| + 1);
  }

  /** A rendered characteristic array `[...]` reads back as a species with the given name and exactly those characteristics. */
  lemma ReadCharacteristicArray(json: string, p: nat, name: string, cs: seq<Characteristic>)
    requires forall i :: 0 <= i < |cs| ==> Plain(cs[i].question)
    requires At(json, p, "[") && At(json, p + 1, RenderEntries(cs) + "]")
    ensures ParseSpecies(ReadFrom(json, p), name) == Some((Species(name, cs), ReadFrom(json, p + |RenderEntries(cs)| + 2)))
  {
    hide ReadFrom, ParseCharacteristics, At, RenderEntries, Plain;
    var body := RenderEntries(cs);
    AtSplit(json, p + 1, body, "]");
    ReadPunctuation(json, p, '[');
    ReadEntries(json, p + 1, cs, SpeciesDomain.Create(name));
    assert SpeciesDomain.Create(name).characteristics + cs == cs;
    ReadPunctuation(json, p + 1 + |body|, ']');
  }

  /** A rendered species reads back as itself. */
  lemma ReadSpeciesEntry(json: string, p: nat, s: Species)
    requires PlainSpecies(s) && At(json, p, RenderSpecies(s))
    ensures ReadFrom(json, p).tok.kind == ObjectStart
    ensures ParseSpeciesEntry(ReadFrom(json, p)) == Some((s, ReadFrom(json, p + |RenderSpecies(s)|)))
  {
    hide ReadFrom, ParseSpecies, At, RenderEntries, Plain;
    var q := Quote(s.name);
    var body := RenderEntries(s.characteristics);
    ObjectLayout(json, p, q, body);
    ReadPunctuation(json, p, '{');
    ReadQuoted(json, p + 1, s.name);
    ReadPunctuation(json, p + 1 + |q|, ':');
    ReadCharacteristicArray(json, p + 2 + |q|, s.name, s.characteristics);
    ReadPunctuation(json, p + 4 + |q| + |body|, '}');
  }

  /** The first species, the separating comma and the rest of a list of two or more species. */
  lemma SpeciesListStep(species: seq<Species>)
    requires |species| > 1
    ensures RenderSpeciesList(species) + "]" == RenderSpecies(species[0]) + "," + RenderSpeciesList(species[1..]) + "]"
    ensures |RenderSpeciesList(species)| == |RenderSpecies(species[0])| + 1 + |RenderSpeciesList(species[1..])|
  {
  }

  /** The species loop ends, consuming nothing, when the current token does not open an object. */
  lemma SpeciesEnd(ps: Parser, t: Tree)
    requires Valid(ps) && ps.tok.kind != ObjectStart
    ensures ParseSpeciesList(ps, t) == Some((t, ps))
  {
  }

  /** One turn of the species loop: a species followed by a comma is appended and the loop goes on. */
  lemma SpeciesContinue(ps: Parser, t: Tree, sp: Species, p5: Parser)
    requires Valid(ps) && ps.tok.kind == ObjectStart && ParseSpeciesEntry(ps) == Some((sp, p5)) && p5.tok.kind == Comma
    ensures ParseSpeciesList(ps, t) == ParseSpeciesList(Advance(p5), t.(species := t.species + [sp]))
  {
    hide ParseSpeciesEntry, Advance;
  }

  /** The last turn of the species loop: a species followed by a closing bracket is appended and the loop stops there. */
  lemma SpeciesStop(ps: Parser, t: Tree, sp: Species, p5: Parser)
    requires Valid(ps) && ps.tok.kind == ObjectStart && ParseSpeciesEntry(ps) == Some((sp, p5)) && p5.tok.kind == ArrayEnd
    ensures ParseSpeciesList(ps, t) == Some((t.(species := t.species + [sp]), p5))
  {
    hide ParseSpeciesEntry, Advance;
  }

  /** A rendered list of species followed by a closing bracket is read species by species, in order. */
  lemma {:induction false} ReadSpeciesList(json: string, p: nat, species: seq<Species>, t: Tree)
    requires forall i :: 0 <= i < |species| ==> PlainSpecies(species[i])
    requires At(json, p, RenderSpeciesList(species) + "]")
    ensures ParseSpeciesList(ReadFrom(json, p), t)
              == Some((t.(species := t.species + species), ReadFrom(json, p + |RenderSpeciesList(species)|)))
    decreases |species|
  {
    hide ReadFrom, ParseSpeciesEntry, At, RenderSpecies, ParseSpeciesList;
    if |species| == 0 {
      assert RenderSpeciesList(species) + "]" == "]";
      ReadPunctuation(json, p, ']');
      SpeciesEnd(ReadFrom(json, p), t);
      assert t.species + species == t.species;
    } else if |species| == 1 {
      var e := RenderSpecies(species[0]);
      assert RenderSpeciesList(species) == e;
      AtSplit(json, p, e, "]");
      ReadSpeciesEntry(json, p, species[0]);
      ReadPunctuation(json, p + |e|, ']');
      SpeciesStop(ReadFrom(json, p), t, species[0], ReadFrom(json, p + |e|));
      assert species == [species[0]];
    } else {
      var t' := t.(species := t.species + [species[0]]);
      ReadFirstSpecies(json, p, species, t);
      ReadSpeciesList(json, p + |RenderSpecies(species[0])| + 1, species[1..], t');
      assert species == [species[0]] + species[1..];
      AppendAssociative(t.species, [species[0]], species[1..]);
    }
  }

  /** The first of two or more rendered species is read and appended, and the loop goes on just past the comma. */
  lemma ReadFirstSpecies(json: string, p: nat, species: seq<Species>, t: Tree)
    requires |species| > 1 && forall i :: 0 <= i < |species| ==> PlainSpecies(species[i])
    requires At(json, p, RenderSpeciesList(species) + "]")
    ensures var q := p + |RenderSpecies(species[0])| + 1;
            && q <= |json|
            && At(json, q, RenderSpeciesList(species[1..]) + "]")
            && (forall i :: 0 <= i < |species[1..]| ==> PlainSpecies(species[1..][i]))
            && |RenderSpeciesList(species)| == |RenderSpecies(species[0])| + 1 + |RenderSpeciesList(species[1..])|
            && ParseSpeciesList(ReadFrom(json, p), t)
                 == ParseSpeciesList(ReadFrom(json, q), t.(species := t.species + [species[0]]))
  {
    hide ReadFrom, ParseSpeciesEntry, At, RenderSpecies, ParseSpeciesList, RenderSpeciesList, PlainSpecies;
    var e := RenderSpecies(species[0]);
    SpeciesListStep(species);
    ListLayout(json, p, e, RenderSpeciesList(species[1..]));
    ReadSpeciesEntry(json, p, species[0]);
    ReadPunctuation(json, p + |e|, ',');
    assert forall i :: 0 <= i < |species[1..]| ==> species[1..][i] == species[i + 1];
    SpeciesContinue(ReadFrom(json, p), t, species[0], ReadFrom(json, p + |e|));
    assert Advance(ReadFrom(json, p + |e|)) == ReadFrom(json, p + |e| + 1);
  }

  /** Rendered text holds no NUL, so the C-string view of it is all of it. */
  lemma RenderTreeHasNoNul(name: string, species: seq<Species>)
    requires Plain(name) && forall i :: 0 <= i < |species| ==> PlainSpecies(species[i])
    ensures '\0' !in RenderTree(name, species)
  {
    SpeciesListHasNoNul(species);
  }

  lemma {:induction false} SpeciesListHasNoNul(species: seq<Species>)
    requires forall i :: 0 <= i < |species| ==> PlainSpecies(species[i])
    ensures '\0' !in RenderSpeciesList(species)
    decreases |species|
  {
    if |species| > 0 {
      EntriesHaveNoNul(species[0].characteristics);
      if |species| > 1 {
        assert forall i :: 0 <= i < |species[1..]| ==> species[1..][i] == species[i + 1];
        SpeciesListHasNoNul(species[1..]);
      }
    }
  }

  lemma {:induction false} EntriesHaveNoNul(cs: seq<Characteristic>)
    requires forall i :: 0 <= i < |cs| ==> Plain(cs[i].question)
    ensures '\0' !in RenderEntries(cs)
    decreases |cs|
  {
    if |cs| > 1 {
      assert forall i :: 0 <= i < |cs[1..]| ==> cs[1..][i] == cs[i + 1];
      EntriesHaveNoNul(cs[1..]);
    }
  }

  /** A text without NUL is read in full. */
  lemma {:induction false} CLengthOfNulFree(text: string)
    requires '\0' !in text
    ensures CLength(text) == |text|
    decreases |text|
  {
    if |text| > 0 {
      assert text[0] in text;
      assert forall c :: c in text[1..] ==> c in text;
      CLengthOfNulFree(text[1..]);
    }
  }

  /** A rendered species array `[...]` followed by the closing brace reads back as a tree of exactly those species, questions extracted. */
  lemma ReadTreeValue(json: string, p: nat, name: string, species: seq<Species>)
    requires forall i :: 0 <= i < |species| ==> PlainSpecies(species[i])
    requires At(json, p, "[") && At(json, p + 1, RenderSpeciesList(species) + "]")
    requires At(json, p + 2 + |RenderSpeciesList(species)|, "}")
    ensures ParseTreeValue(ReadFrom(json, p), name) == Extracted(Tree(name, species, []))
  {
    hide ReadFrom, ParseSpeciesList, At, Extracted, RenderSpeciesList, PlainSpecies;
    var body := RenderSpeciesList(species);
    AtSplit(json, p + 1, body, "]");
    ReadPunctuation(json, p, '[');
    ReadSpeciesList(json, p + 1, species, TreeDomain.Create(name));
    assert TreeDomain.Create(name).species + species == species;
    ReadPunctuation(json, p + 1 + |body|, ']');
    ReadPunctuation(json, p + 2 + |body|, '}');
  }

  /** A rendered key at the start of a text parses back to its tree, with the questions extracted. */
  lemma ReadTree(json: string, name: string, species: seq<Species>)
    requires Plain(name) && forall i :: 0 <= i < |species| ==> PlainSpecies(species[i])
    requires At(json, 0, RenderTree(name, species))
    ensures ParseTree(ReadFrom(json, 0)) == Extracted(Tree(name, species, []))
  {
    hide ReadFrom, ParseTreeValue, At, RenderSpeciesList, PlainSpecies;
    var q := Quote(name);
    var body := RenderSpeciesList(species);
    ObjectLayout(json, 0, q, body);
    ReadPunctuation(json, 0, '{');
    ReadQuoted(json, 1, name);
    ReadPunctuation(json, 1 + |q|, ':');
    ReadTreeValue(json, 2 + |q|, name, species);
  }

  /**
   Reading a rendered key gives back its name and its species, in order,
   each with its characteristics in order, and the questions extracted from
   them; a key rendered without species is refused.
   */
  lemma LoadRenderedTree(name: string, species: seq<Species>)
    requires Plain(name) && forall i :: 0 <= i < |species| ==> PlainSpecies(species[i])
    ensures Load(RenderTree(name, species)) == Extracted(Tree(name, species, []))
  {
    var json := RenderTree(name, species);
    RenderTreeHasNoNul(name, species);
    CLengthOfNulFree(json);
    assert json[..|json|] == json;
    assert Init(json) == ReadFrom(json, 0);
    ReadTree(json, name, species);
  }

}
