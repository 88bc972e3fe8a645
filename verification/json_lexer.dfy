/**
 The tokenizer of the key loader: a scanner over an in-memory character
 sequence that recognises the punctuation of JSON, string literals with
 backslash escapes, the literals true/false/null and a loose number form.
 Positions are indices into the text; a token is produced from the first
 non-whitespace position at or after the current one.
 */
module JsonLexer {
  import opened Types

  /** The token kinds the scanner distinguishes. */
  datatype TokenType =
    | NoToken
    | ObjectStart
    | ObjectEnd
    | ArrayStart
    | ArrayEnd
    | StringToken
    | NumberToken
    | TrueToken
    | FalseToken
    | NullToken
    | Colon
    | Comma
    | EndOfInput

  /** A token: its kind and, for strings and numbers only, its text. */
  datatype Token = Token(kind: TokenType, value: Option<string>)

  /** Only string and number tokens carry a value. */
  predicate WellFormed(t: Token) {
    t.value.Some? <==> t.kind == StringToken || t.kind == NumberToken
  }

  /** The C library's isspace in the default locale: space, tab, newline, vertical tab, form feed, carriage return. */
  predicate IsSpace(c: char) {
    c == ' ' || c == '\t' || c == '\n' || c == '\U{B}' || c == '\U{C}' || c == '\r'
  }

  predicate IsDigit(c: char) {
    '0' <= c <= '9'
  }

  /** Characters a number token may consist of. */
  predicate IsNumberChar(c: char) {
    IsDigit(c) || c == '.' || c == '-' || c == '+' || c == 'e' || c == 'E'
  }

  /** The end of the whitespace run starting at `pos`. */
  function SkipSpace(json: string, pos: nat): (p: nat)
    requires pos <= |json|
    ensures pos <= p <= |json|
    decreases |json| - pos
  {
    if pos < |json| && IsSpace(json[pos]) then SkipSpace(json, pos + 1) else pos
  }

  /** Whitespace skipping stops at the first character that is not whitespace, or at the end. */
  lemma {:induction false} SkipSpaceMaximal(json: string, pos: nat)
    requires pos <= |json|
    ensures var p := SkipSpace(json, pos);
            && (forall i :: pos <= i < p ==> IsSpace(json[i]))
            && (p < |json| ==> !IsSpace(json[p]))
    decreases |json| - pos
  {
    if pos < |json| && IsSpace(json[pos]) {
      SkipSpaceMaximal(json, pos + 1);
    }
  }

  /** The end of the run of number characters starting at `pos`. */
  function NumberEnd(json: string, pos: nat): (p: nat)
    requires pos <= |json|
    ensures pos <= p <= |json|
    decreases |json| - pos
  {
    if pos < |json| && IsNumberChar(json[pos]) then NumberEnd(json, pos + 1) else pos
  }

  /** The number run is maximal. */
  lemma {:induction false} NumberEndMaximal(json: string, pos: nat)
    requires pos <= |json|
    ensures var p := NumberEnd(json, pos);
            && (forall i :: pos <= i < p ==> IsNumberChar(json[i]))
            && (p < |json| ==> !IsNumberChar(json[p]))
    decreases |json| - pos
  {
    if pos < |json| && IsNumberChar(json[pos]) {
      NumberEndMaximal(json, pos + 1);
    }
  }

  /**
   The closing-quote search of a string literal from `i`: a backslash with a
   character after it skips both, anything else one position; each step
   counts one character of the value. Stops at a quote or at the end of the
   input. Returns the stop position and the count.
   */
  function Scan(json: string, i: nat): (r: (nat, nat))
    requires i <= |json|
    ensures i <= r.0 <= |json|
    ensures r.1 <= r.0 - i
    ensures r.0 < |json| ==> json[r.0] == '"'
    decreases |json| - i
  {
    if i == |json| || json[i] == '"' then (i, 0)
    else
      var next := if json[i] == '\\' && i + 1 < |json| then i + 2 else i + 1;
      var (end, count) := Scan(json, next);
      (end, count + 1)
  }

  /** What a backslash followed by `c` stands for; any other character stands for itself. */
  function Unescape(c: char): char {
    match c
    case 'n' => '\n'
    case 'r' => '\r'
    case 't' => '\t'
    case 'b' => '\U{8}'
    case 'f' => '\U{C}'
    case _ => c
  }

  /**
   The copy loop: walks raw positions from `i` while they are below `stop`,
   turning a backslash and the character after it into one unescaped
   character. It writes at most one character per raw position, so the
   result never exceeds `stop - i` characters.
   */
  function Copy(json: string, i: nat, stop: nat): (r: string)
    requires i <= |json| && stop <= |json|
    ensures i <= stop ==> |r| <= stop - i
    ensures stop <= i ==> r == []
    decreases |json| - i
  {
    if i >= stop then []
    else if json[i] == '\\' && i + 1 < |json| then [Unescape(json[i + 1])] + Copy(json, i + 2, stop)
    else [json[i]] + Copy(json, i + 1, stop)
  }

  /**
   A string literal whose opening quote is at `p`, as the program reads it:
   the scan counts the value's characters, the position moves past the
   closing quote (or stays at the end of an unterminated literal), and the
   copy walks that many RAW positions from the first character.
   */
  function ParseString(json: string, p: nat): (r: (string, nat))
    requires p < |json| && json[p] == '"'
  {
    var start := p + 1;
    var (end, count) := Scan(json, start);
    var next := if end < |json| then end + 1 else end;
    (Copy(json, start, start + count), next)
  }

  /**
   One scanner step from `pos`: skip whitespace; at the end of the input
   report EndOfInput; otherwise read one token from the first
   non-whitespace character. A keyword that does not fit or is misspelled is
   NoToken and leaves the position at its first character; any other
   unexpected character is NoToken and is stepped over.
   */
  function NextToken(json: string, pos: nat): (r: (Token, nat))
    requires pos <= |json|
    ensures WellFormed(r.0)
    ensures pos <= r.1 <= |json|
    ensures r.0.kind == EndOfInput <==> SkipSpace(json, pos) == |json|
    ensures r.0.kind != EndOfInput && !(r.0.kind == NoToken && r.1 == SkipSpace(json, pos)) ==> pos < r.1
  {
    var p := SkipSpace(json, pos);
    if p == |json| then (Token(EndOfInput, None), p)
    else
      match json[p]
      case '{' => (Token(ObjectStart, None), p + 1)
      case '}' => (Token(ObjectEnd, None), p + 1)
      case '[' => (Token(ArrayStart, None), p + 1)
      case ']' => (Token(ArrayEnd, None), p + 1)
      case ':' => (Token(Colon, None), p + 1)
      case ',' => (Token(Comma, None), p + 1)
      case '"' =>
        var (value, next) := ParseString(json, p);
        (Token(StringToken, Some(value)), next)
      case 't' =>
        if p + 3 < |json| && json[p + 1] == 'r' && json[p + 2] == 'u' && json[p + 3] == 'e'
        then (Token(TrueToken, None), p + 4)
        else (Token(NoToken, None), p)
      case 'f' =>
        if p + 4 < |json| && json[p + 1] == 'a' && json[p + 2] == 'l' && json[p + 3] == 's' && json[p + 4] == 'e'
        then (Token(FalseToken, None), p + 5)
        else (Token(NoToken, None), p)
      case 'n' =>
        if p + 3 < |json| && json[p + 1] == 'u' && json[p + 2] == 'l' && json[p + 3] == 'l'
        then (Token(NullToken, None), p + 4)
        else (Token(NoToken, None), p)
      case c =>
        if IsDigit(c) || c == '-' then
          var end := NumberEnd(json, p);
          (Token(NumberToken, Some(json[p..end])), end)
        else (Token(NoToken, None), p + 1)
  }

  /** The token kind of a punctuation character. */
  function PunctuationKind(c: char): Option<TokenType> {
    match c
    case '{' => Some(ObjectStart)
    case '}' => Some(ObjectEnd)
    case '[' => Some(ArrayStart)
    case ']' => Some(ArrayEnd)
    case ':' => Some(Colon)
    case ',' => Some(Comma)
    case _ => None
  }

  /** Each punctuation character, after any whitespace, is its own token and advances the position by one. */
  lemma PunctuationToken(json: string, pos: nat)
    requires pos <= |json|
    requires SkipSpace(json, pos) < |json| && PunctuationKind(json[SkipSpace(json, pos)]).Some?
    ensures var p := SkipSpace(json, pos);
            NextToken(json, pos) == (Token(PunctuationKind(json[p]).value, None), p + 1)
  {
  }

  /** `true` is recognised exactly when it is spelled out in full, and is stepped over. */
  lemma TrueKeyword(json: string, pos: nat)
    requires pos <= |json|
    ensures var p := SkipSpace(json, pos);
            var r := NextToken(json, pos);
            && (r.0.kind == TrueToken <==> p + 3 < |json| && json[p..p + 4] == "true")
            && (r.0.kind == TrueToken ==> r.1 == p + 4)
  {
    var p := SkipSpace(json, pos);
    if p + 3 < |json| {
      assert json[p..p + 4] == "true" <==> json[p] == 't' && json[p + 1] == 'r' && json[p + 2] == 'u' && json[p + 3] == 'e';
    }
  }

  /** `false` is recognised exactly when it is spelled out in full, and is stepped over. */
  lemma FalseKeyword(json: string, pos: nat)
    requires pos <= |json|
    ensures var p := SkipSpace(json, pos);
            var r := NextToken(json, pos);
            && (r.0.kind == FalseToken <==> p + 4 < |json| && json[p..p + 5] == "false")
            && (r.0.kind == FalseToken ==> r.1 == p + 5)
  {
    var p := SkipSpace(json, pos);
    if p + 4 < |json| {
      assert json[p..p + 5] == "false"
         <==> json[p] == 'f' && json[p + 1] == 'a' && json[p + 2] == 'l' && json[p + 3] == 's' && json[p + 4] == 'e';
    }
  }

  /** `null` is recognised exactly when it is spelled out in full, and is stepped over. */
  lemma NullKeyword(json: string, pos: nat)
    requires pos <= |json|
    ensures var p := SkipSpace(json, pos);
            var r := NextToken(json, pos);
            && (r.0.kind == NullToken <==> p + 3 < |json| && json[p..p + 4] == "null")
            && (r.0.kind == NullToken ==> r.1 == p + 4)
  {
    var p := SkipSpace(json, pos);
    if p + 3 < |json| {
      assert json[p..p + 4] == "null" <==> json[p] == 'n' && json[p + 1] == 'u' && json[p + 2] == 'l' && json[p + 3] == 'l';
    }
  }

  /** A keyword that does not fit or is misspelled is NoToken and leaves the position at its first letter. */
  lemma FailedKeyword(json: string, pos: nat)
    requires pos <= |json|
    ensures var p := SkipSpace(json, pos);
            var r := NextToken(json, pos);
            p < |json| && json[p] in "tfn" && r.0.kind == NoToken ==> r.1 == p
  {
  }

  /**
   A number token starts with a digit or a minus sign and is the longest
   run of number characters from there; its text is that run.
   */
  lemma NumberTokens(json: string, pos: nat)
    requires pos <= |json|
    ensures var p := SkipSpace(json, pos);
            var (tok, next) := NextToken(json, pos);
            && (tok.kind == NumberToken <==> p < |json| && (IsDigit(json[p]) || json[p] == '-'))
            && (tok.kind == NumberToken ==>
                  && p < next
                  && (forall i :: p <= i < next ==> IsNumberChar(json[i]))
                  && (next == |json| || !IsNumberChar(json[next]))
                  && tok.value == Some(json[p..next]))
  {
    var p := SkipSpace(json, pos);
    if p < |json| {
      NumberEndMaximal(json, p);
    }
  }

  /** Any character that starts no token is NoToken and is stepped over. */
  lemma StrayCharacter(json: string, pos: nat)
    requires pos <= |json|
    requires SkipSpace(json, pos) < |json|
    requires var c := json[SkipSpace(json, pos)];
             PunctuationKind(c).None? && c != '"' && c !in "tfn" && !IsDigit(c) && c != '-'
    ensures NextToken(json, pos) == (Token(NoToken, None), SkipSpace(json, pos) + 1)
  {
  }

  /** No character of `s` is a backslash. */
  predicate NoBackslash(s: string) {
    forall i :: 0 <= i < |s| ==> s[i] != '\\'
  }

  /**
   Without a backslash the scan stops at the first quote (or the end of the
   input) and counts exactly the characters it passed.
   */
  lemma {:induction false} ScanPlain(json: string, i: nat)
    requires i <= |json|
    requires NoBackslash(json[i..Scan(json, i).0])
    ensures var (end, count) := Scan(json, i);
            count == end - i && '"' !in json[i..end]
    decreases |json| - i
  {
    if i < |json| && json[i] != '"' {
      var end := Scan(json, i).0;
      assert json[i..end][0] == json[i];
      assert json[i + 1..end] == json[i..end][1..];
      ScanPlain(json, i + 1);
    }
  }

  /** Without a backslash the copy is the raw text itself. */
  lemma {:induction false} CopyPlain(json: string, i: nat, stop: nat)
    requires i <= stop <= |json|
    requires NoBackslash(json[i..stop])
    ensures Copy(json, i, stop) == json[i..stop]
    decreases stop - i
  {
    if i < stop {
      assert json[i..stop][0] == json[i];
      assert json[i + 1..stop] == json[i..stop][1..];
      CopyPlain(json, i + 1, stop);
    }
  }

  /**
   A string literal without backslashes reads as the characters between the
   quotes, and the position ends just past the closing quote, or at the end
   of the input when the literal is unterminated.
   */
  lemma PlainStringToken(json: string, p: nat)
    requires p < |json| && json[p] == '"'
    requires NoBackslash(json[p + 1..Scan(json, p + 1).0])
    ensures var end := Scan(json, p + 1).0;
            && '"' !in json[p + 1..end]
            && ParseString(json, p) == (json[p + 1..end], if end < |json| then end + 1 else end)
  {
    hide Scan, Copy;
    var start := p + 1;
    var end := Scan(json, start).0;
    ScanPlain(json, start);
    assert start + Scan(json, start).1 == end;
    CopyPlain(json, start, end);
    var r := ParseString(json, p);
    assert r.0 == json[start..end];
    assert r.1 == if end < |json| then end + 1 else end;
    assert r == (r.0, r.1);
  }

  /**
   The copy stays inside the buffer the program allocates: the value has at
   most `count` characters (the buffer holds count + 1 with the terminator)
   and every raw position it reads lies before the closing quote.
   */
  lemma StringBufferBound(json: string, p: nat)
    requires p < |json| && json[p] == '"'
    ensures var (end, count) := Scan(json, p + 1);
            && p + 1 + count <= end <= |json|
            && |ParseString(json, p).0| <= count
  {
  }

  /**
   The escape defect: for the literal "\nab" the scan counts three
   characters, but the copy walks only three RAW positions, so the value is
   a newline and "a"; the final "b" is lost.
   */
  lemma EscapedStringLosesTail()
    ensures var json := ['"', '\\', 'n', 'a', 'b', '"'];
            ParseString(json, 0) == (['\n', 'a'], 6)
  {
    var json := ['"', '\\', 'n', 'a', 'b', '"'];
    assert Scan(json, 5) == (5, 0);
    assert Scan(json, 4) == (5, 1);
    assert Scan(json, 3) == (5, 2);
    assert Scan(json, 1) == (5, 3);
    assert Copy(json, 3, 4) == ['a'];
    assert Copy(json, 1, 4) == ['\n', 'a'];
  }

  /**
   The evidently intended reading: the copy walks the same raw positions as
   the scan, up to the closing quote.
   */
  function ParseStringIntended(json: string, p: nat): (r: (string, nat))
    requires p < |json| && json[p] == '"'
  {
    var start := p + 1;
    var (end, count) := Scan(json, start);
    var next := if end < |json| then end + 1 else end;
    (Copy(json, start, end), next)
  }

  /** The escaped form of a value: a backslash before every quote and every backslash. */
  function Escape(v: string): (e: string)
    ensures |e| >= |v|
  {
    if |v| == 0 then []
    else if v[0] == '"' || v[0] == '\\' then ['\\', v[0]] + Escape(v[1..])
    else [v[0]] + Escape(v[1..])
  }

  /** Where the first escaped character and the rest of an escaped value lie. */
  lemma EscapeLayout(json: string, i: nat, v: string)
    requires |v| > 0 && i + |Escape(v)| <= |json| && json[i..i + |Escape(v)|] == Escape(v)
    ensures var step := if v[0] == '"' || v[0] == '\\' then 2 else 1;
            && |Escape(v)| == step + |Escape(v[1..])|
            && json[i + step..i + |Escape(v)|] == Escape(v[1..])
            && (step == 2 ==> json[i] == '\\' && json[i + 1] == v[0])
            && (step == 1 ==> json[i] == v[0] && v[0] != '"' && v[0] != '\\')
  {
    var e := Escape(v);
    var step := if v[0] == '"' || v[0] == '\\' then 2 else 1;
    assert e[step..] == Escape(v[1..]);
    assert json[i + step..i + |e|] == json[i..i + |e|][step..];
    assert json[i] == e[0];
    if step == 2 {
      assert json[i + 1] == e[1];
    }
  }

  /** Scanning an escaped value followed by a quote stops at that quote after counting |v| characters. */
  lemma {:induction false} EscapeScan(json: string, i: nat, v: string)
    requires i + |Escape(v)| < |json|
    requires json[i..i + |Escape(v)|] == Escape(v) && json[i + |Escape(v)|] == '"'
    ensures Scan(json, i) == (i + |Escape(v)|, |v|)
    decreases |v|
  {
    if |v| == 0 {
      assert Scan(json, i) == (i, 0);
    } else {
      EscapeLayout(json, i, v);
      var step := if v[0] == '"' || v[0] == '\\' then 2 else 1;
      EscapeScan(json, i + step, v[1..]);
    }
  }

  /** Copying back the raw positions of an escaped value yields the value. */
  lemma {:induction false} EscapeCopy(json: string, i: nat, v: string)
    requires i + |Escape(v)| <= |json|
    requires json[i..i + |Escape(v)|] == Escape(v)
    ensures Copy(json, i, i + |Escape(v)|) == v
    decreases |v|
  {
    if |v| > 0 {
      EscapeLayout(json, i, v);
      var step := if v[0] == '"' || v[0] == '\\' then 2 else 1;
      EscapeCopy(json, i + step, v[1..]);
      assert v == [v[0]] + v[1..];
    }
  }

  /**
   The scan and the intended copy agree on an escaped value: scanning
   `Escape(v)` followed by a quote stops at that quote after counting |v|
   characters, and copying back the same raw positions yields `v`.
   */
  lemma EscapeScanCopy(json: string, i: nat, v: string)
    requires i + |Escape(v)| < |json|
    requires json[i..i + |Escape(v)|] == Escape(v) && json[i + |Escape(v)|] == '"'
    ensures Scan(json, i) == (i + |Escape(v)|, |v|)
    ensures Copy(json, i, i + |Escape(v)|) == v
  {
    EscapeScan(json, i, v);
    EscapeCopy(json, i, v);
  }

  /**
   Round trip of the intended reading: a quoted escaped value reads back as
   the value, and the position ends just past the closing quote.
   */
  lemma IntendedStringRoundTrip(v: string, rest: string)
    ensures var json := ['"'] + Escape(v) + ['"'] + rest;
            ParseStringIntended(json, 0) == (v, |Escape(v)| + 2)
  {
    var json := ['"'] + Escape(v) + ['"'] + rest;
    assert json[1..1 + |Escape(v)|] == Escape(v);
    assert json[1 + |Escape(v)|] == '"';
    EscapeScanCopy(json, 1, v);
  }

  /**
   Without a backslash the program's reading and the intended one agree, so
   the defect only shows on literals that contain escapes.
   */
  lemma IntendedAgreesWithoutEscapes(json: string, p: nat)
    requires p < |json| && json[p] == '"'
    requires NoBackslash(json[p + 1..Scan(json, p + 1).0])
    ensures ParseStringIntended(json, p) == ParseString(json, p)
  {
    hide Scan, Copy;
    var end := Scan(json, p + 1).0;
    PlainStringToken(json, p);
    CopyPlain(json, p + 1, end);
  }

  /** The intended reading keeps the "b" the program loses. */
  lemma IntendedKeepsTail()
    ensures var json := ['"', '\\', 'n', 'a', 'b', '"'];
            ParseStringIntended(json, 0) == (['\n', 'a', 'b'], 6)
  {
    var json := ['"', '\\', 'n', 'a', 'b', '"'];
    assert Scan(json, 1) == (5, 3) by {
      assert Scan(json, 5) == (5, 0);
      assert Scan(json, 4) == (5, 1);
      assert Scan(json, 3) == (5, 2);
    }
    assert Copy(json, 4, 5) == ['b'];
    assert Copy(json, 3, 5) == ['a', 'b'];
    assert Copy(json, 1, 5) == ['\n', 'a', 'b'];
  }
}
