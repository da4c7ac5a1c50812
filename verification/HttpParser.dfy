/** Parsing of HTTP parameter lists: tokens, quoted strings, linear white space, attributes.
    Parsing functions take the input that is left and return what is left after them. */
module HttpParser {
  import opened Messages

  const TAB: Byte := 9
  const LF: Byte := 10
  const CR: Byte := 13
  const SPACE: Byte := 32
  const QUOTE: Byte := 34
  const COMMA: Byte := 44
  const SEMICOLON: Byte := 59
  const EQUALS: Byte := 61
  const BACKSLASH: Byte := 92

  type Bytes = seq<Byte>

  /** The table header_token, sixteen entries to a row. */
  function TokenRow(r: nat): (row: seq<nat>)
    ensures |row| == 16
  {
    if r == 2 then [0, 1, 0, 1, 1, 1, 1, 1, 0, 0, 1, 1, 0, 1, 1, 0]
    else if r == 3 then [1, 1, 1, 1, 1, 1, 1, 1, 1, 1, 0, 0, 0, 0, 0, 0]
    else if r == 4 then [0, 1, 1, 1, 1, 1, 1, 1, 1, 1, 1, 1, 1, 1, 1, 1]
    else if r == 5 then [1, 1, 1, 1, 1, 1, 1, 1, 1, 1, 1, 0, 0, 0, 1, 1]
    else if r == 6 then [1, 1, 1, 1, 1, 1, 1, 1, 1, 1, 1, 1, 1, 1, 1, 1]
    else if r == 7 then [1, 1, 1, 1, 1, 1, 1, 1, 1, 1, 1, 0, 1, 0, 1, 0]
    else [0, 0, 0, 0, 0, 0, 0, 0, 0, 0, 0, 0, 0, 0, 0, 0]
  }

  predicate IsTokenChar(c: Byte) { TokenRow(c / 16)[c % 16] == 1 }

  predicate IsWhitespace(c: Byte) { c == TAB || c == SPACE }

  /** None of the characters that the grammar gives a meaning is a token character. */
  lemma Delimiters(c: Byte)
    requires c in {TAB, LF, CR, SPACE, QUOTE, COMMA, SEMICOLON, EQUALS, BACKSLASH}
    ensures !IsTokenChar(c)
  {
  }

  /** The characters of the grammar. */
  lemma SyntaxCharacters()
    ensures [TAB, LF, CR, SPACE, QUOTE] == Ascii("\t\n\r \"")
    ensures [COMMA, SEMICOLON, EQUALS, BACKSLASH] == Ascii(",;=\\")
  {
  }

  /** A separator of the HTTP grammar. */
  predicate IsSeparator(c: char) {
    c in {'(', ')', '<', '>', '@', ',', ';', ':', '\\', '"', '/', '[', ']', '?', '=', '{', '}'}
  }

  /** The table is the grammar's: token characters are the visible ASCII characters that are
      not separators. */
  lemma TokenAlphabet(c: Byte)
    ensures IsTokenChar(c) <==> 0x21 <= c < 0x7F && !IsSeparator(c as char)
  {
  }

  // ---- the pieces ----

  function TokenLength(r: Bytes): (n: nat)
    ensures n <= |r|
  {
    if r == [] || !IsTokenChar(r[0]) then 0 else 1 + TokenLength(r[1..])
  }

  function SkipWhitespace(r: Bytes): (rest: Bytes)
    ensures |rest| <= |r|
  {
    if r == [] || !IsWhitespace(r[0]) then r else SkipWhitespace(r[1..])
  }

  predicate StartsFold(r: Bytes) {
    |r| > 2 && r[0] == CR && r[1] == LF && IsWhitespace(r[2])
  }

  /** extract_lws: one folded line start at most, then white space. */
  function Lws(r: Bytes): (rest: Bytes)
    ensures |rest| <= |r|
  {
    SkipWhitespace(if StartsFold(r) then r[3..] else r)
  }

  function AllLws(r: Bytes): (rest: Bytes)
    ensures |rest| <= |r|
    decreases |r|
  {
    var rest := Lws(r);
    if rest == [] || |rest| == |r| then rest else AllLws(rest)
  }

  /** Index of the first quote, or the length. */
  function FindQuote(r: Bytes): (k: nat)
    ensures k <= |r| && (k < |r| ==> r[k] == QUOTE)
  {
    if r == [] || r[0] == QUOTE then 0 else 1 + FindQuote(r[1..])
  }

  /** What follows an opening quote, or follows an escaped one: the rest of the value, and
      what is left; None if there is no closing quote. */
  function QuotedBody(r: Bytes): (q: Option<(Bytes, Bytes)>)
    ensures q.Some? ==> |q.value.1| < |r|
    decreases |r|
  {
    var k := FindQuote(r);
    if k == |r| then None
    else if k > 0 && r[k - 1] == BACKSLASH then
      match QuotedBody(r[k + 1..])
      case None => None
      case Some((value, rest)) => Some((r[..k - 1] + [QUOTE] + value, rest))
    else Some((r[..k], r[k + 1..]))
  }

  /** extract_quoted_string: nothing is consumed unless a whole quoted string is there. */
  function QuotedString(r: Bytes): (q: (Bytes, Bytes))
    ensures |q.1| <= |r|
  {
    if r == [] || r[0] != QUOTE then ([], r)
    else match QuotedBody(r[1..])
      case None => ([], r)
      case Some(q) => q
  }

  type Attributes = map<Bytes, Bytes>

  datatype Item = Item(name: Bytes, text: Bytes, rest: Bytes)

  /** A quoted string or a token, after white space; None is a syntax error. */
  function ReadValue(r: Bytes): (value: Option<(Bytes, Bytes)>)
    ensures value.Some? ==> |value.value.1| <= |r|
  {
    var r1 := AllLws(r);
    var (text, rest) := QuotedString(r1);
    var m := TokenLength(r1);
    if |rest| != |r1| then Some((text, rest))
    else if m > 0 then Some((r1[..m], r1[m..]))
    else None
  }

  /** One attribute, without the semicolon before it: a name, and a value if an equals sign
      follows. None is a syntax error. */
  function ReadItem(r: Bytes): (item: Option<Item>)
    ensures item.Some? ==> |item.value.rest| < |r|
  {
    var r1 := AllLws(r);
    var n := TokenLength(r1);
    if n == 0 then None
    else
      var r2 := AllLws(r1[n..]);
      if r2 == [] || r2[0] != EQUALS then Some(Item(r1[..n], [], r2))
      else
        match ReadValue(r2[1..])
        case None => None
        case Some((text, rest)) => Some(Item(r1[..n], text, rest))
  }

  datatype AttributeResult = AttributeResult(attributes: Attributes, rest: Option<Bytes>)

  /** The loop of extract_attributes; rest is None after a syntax error. */
  function AttributeLoop(r: Bytes, first: bool, attributes: Attributes): AttributeResult
    decreases |r|
  {
    var r1 := AllLws(r);
    if r1 == [] || (!first && r1[0] != SEMICOLON) then AttributeResult(attributes, Some(r1))
    else
      match ReadItem(if first then r1 else r1[1..])
      case None => AttributeResult(attributes, None)
      case Some(item) => AttributeLoop(item.rest, false, attributes[item.name := item.text])
  }

  /** extract_attributes: everything is left after an error. */
  function AttributesIn(r: Bytes, attributes: Attributes): (Attributes, Bytes) {
    var result := AttributeLoop(r, true, attributes);
    (result.attributes, if result.rest == None then r else result.rest.value)
  }

  type Parameters = seq<(Bytes, Attributes)>

  /** One parameter; the rest starts where its attributes, or its name, end. */
  function ReadParameter(r: Bytes): (p: Option<((Bytes, Attributes), Bytes)>)
    ensures p.Some? ==> |p.value.1| < |r|
  {
    var n := TokenLength(r);
    if n == 0 then None
    else
      var r1 := AllLws(r[n..]);
      if r1 == [] || r1[0] != SEMICOLON then Some(((r[..n], map[]), r1))
      else
        LoopShrinks(r1[1..], true, map[]);
        var (attributes, rest) := AttributesIn(r1[1..], map[]);
        if |rest| == |r1[1..]| then None
        else Some(((r[..n], attributes), rest))
  }

  datatype ParameterResult = ParameterResult(parameters: Parameters, rest: Option<Bytes>)

  /** The loop of extract_parameters; a comma must be followed by something. */
  function ParameterLoop(r: Bytes, parameters: Parameters): ParameterResult
    decreases |r|
  {
    var r := AllLws(r);
    if r == [] then ParameterResult(parameters, Some(r))
    else
      match ReadParameter(r)
      case None => ParameterResult(parameters, None)
      case Some((p, after)) =>
        var r1 := AllLws(after);
        if r1 == [] || r1[0] != COMMA then ParameterResult(parameters + [p], Some(r1))
        else if |r1| == 1 then ParameterResult(parameters + [p], None)
        else ParameterLoop(r1[1..], parameters + [p])
  }

  lemma {:induction false} LoopShrinks(r: Bytes, first: bool, attributes: Attributes)
    ensures var rest := AttributeLoop(r, first, attributes).rest; rest.Some? ==> |rest.value| <= |r|
    decreases |r|
  {
    var r1 := AllLws(r);
    if r1 != [] && (first || r1[0] == SEMICOLON) {
      var item := ReadItem(if first then r1 else r1[1..]);
      if item.Some? {
        LoopShrinks(item.value.rest, false, attributes[item.value.name := item.value.text]);
      }
    }
  }

  /** extract_parameters: the list, and what is left; everything is left after an error. */
  function ParametersIn(r: Bytes): (Parameters, Bytes) {
    var result := ParameterLoop(r, []);
    (result.parameters, if result.rest == None then r else result.rest.value)
  }

  // ---- white space, for any input ----

  predicate Blank(c: Byte) { c as char == ' ' || c as char == '\t' }

  /** A line end with the white space that makes it a fold. */
  predicate Folded(w: Bytes) {
    |w| >= 3 && w[0] as char == '\r' && w[1] as char == '\n' && Blank(w[2])
  }

  /** Linear white space as a word: spaces, tabs, and line folds. */
  predicate IsLws(w: Bytes)
    decreases |w|
  {
    || w == []
    || (Blank(w[0]) && IsLws(w[1..]))
    || (Folded(w) && IsLws(w[3..]))
  }

  lemma {:induction false} LwsConcat(v: Bytes, w: Bytes)
    requires IsLws(v) && IsLws(w)
    ensures IsLws(v + w)
    decreases |v|
  {
    if v == [] {
      assert v + w == w;
    } else if IsWhitespace(v[0]) {
      assert (v + w)[1..] == v[1..] + w;
      LwsConcat(v[1..], w);
    } else {
      assert (v + w)[3..] == v[3..] + w;
      LwsConcat(v[3..], w);
    }
  }

  lemma {:induction false} SkippedWord(r: Bytes) returns (w: Bytes)
    ensures IsLws(w) && r == w + SkipWhitespace(r)
    ensures var rest := SkipWhitespace(r); rest != [] ==> !IsWhitespace(rest[0])
  {
    hide IsLws;
    if r == [] || !IsWhitespace(r[0]) {
      w := [];
      NoWord();
    } else {
      var v := SkippedWord(r[1..]);
      w := [r[0]] + v;
      BlankFirst(r[0], v);
      FirstThen(r, v, SkipWhitespace(r));
    }
  }

  lemma NoWord()
    ensures IsLws([])
  {
  }

  lemma BlankFirst(b: Byte, v: Bytes)
    requires IsWhitespace(b) && IsLws(v)
    ensures IsLws([b] + v)
  {
    assert ([b] + v)[1..] == v;
  }

  lemma FirstThen(r: Bytes, v: Bytes, rest: Bytes)
    requires r != [] && r[1..] == v + rest
    ensures r == [r[0]] + v + rest
  {
  }

  lemma LwsWord(r: Bytes) returns (w: Bytes)
    ensures IsLws(w) && r == w + Lws(r)
    ensures var rest := Lws(r); rest != [] ==> !IsWhitespace(rest[0])
  {
    hide SkipWhitespace;
    if StartsFold(r) {
      var v := SkippedWord(r[3..]);
      w := r[..3] + v;
      assert w[3..] == v;
    } else {
      w := SkippedWord(r);
    }
  }

  /** Whatever the input, extract_all_lws drops a word of linear white space, and no more
      white space can be dropped from what it leaves. */
  lemma {:induction false} AllLwsIsMaximal(r: Bytes) returns (w: Bytes)
    ensures IsLws(w) && r == w + AllLws(r)
    ensures var rest := AllLws(r); !Folded(rest) && (rest != [] ==> !Blank(rest[0]))
    decreases |r|
  {
    hide SkipWhitespace, IsLws;
    var v := LwsWord(r);
    var rest := Lws(r);
    if rest == [] {
      w := v;
    } else if |rest| == |r| {
      w := v;
      FoldShrinks(r);
    } else {
      var u := AllLwsIsMaximal(rest);
      LwsConcat(v, u);
      w := v + u;
    }
  }

  lemma FoldShrinks(r: Bytes)
    ensures StartsFold(r) ==> |Lws(r)| < |r|
  {
  }

  // ---- the code, with cursors into the characters s[begin..] ----

  method ExtractToken(s: Bytes, begin: nat) returns (token: Bytes, cursor: nat)
    requires begin <= |s|
    ensures var r, n := s[begin..], TokenLength(s[begin..]);
            cursor == begin + n && token == r[..n] && s[cursor..] == r[n..]
  {
    hide IsTokenChar;
    cursor := begin;
    while cursor < |s| && IsTokenChar(s[cursor])
      invariant begin <= cursor <= |s|
      invariant begin + TokenLength(s[begin..]) == cursor + TokenLength(s[cursor..])
    {
      assert s[cursor..][1..] == s[cursor + 1..];
      cursor := cursor + 1;
    }
    token := s[begin..cursor];
  }

  method ExtractLws(s: Bytes, begin: nat) returns (cursor: nat)
    requires begin <= |s|
    ensures begin <= cursor <= |s| && s[cursor..] == Lws(s[begin..])
  {
    cursor := begin;
    if |s| - begin > 2 && s[begin] == CR && s[begin + 1] == LF && IsWhitespace(s[begin + 2]) {
      cursor := cursor + 3;
      assert s[begin..][3..] == s[cursor..];
    }
    while cursor < |s| && IsWhitespace(s[cursor])
      invariant begin <= cursor <= |s|
      invariant SkipWhitespace(s[cursor..]) == Lws(s[begin..])
    {
      assert s[cursor..][1..] == s[cursor + 1..];
      cursor := cursor + 1;
    }
  }

  method ExtractAllLws(s: Bytes, begin: nat) returns (cursor: nat)
    requires begin <= |s|
    ensures begin <= cursor <= |s| && s[cursor..] == AllLws(s[begin..])
  {
    var before := begin;
    cursor := ExtractLws(s, before);
    while cursor != |s| && before != cursor
      invariant begin <= before <= cursor <= |s|
      invariant s[cursor..] == Lws(s[before..])
      invariant AllLws(s[before..]) == AllLws(s[begin..])
      decreases |s| - before
    {
      before := cursor;
      cursor := ExtractLws(s, before);
    }
  }

  /** std::find for a quote. */
  method FindQuoteFrom(s: Bytes, begin: nat) returns (cursor: nat)
    requires begin <= |s|
    ensures cursor == begin + FindQuote(s[begin..])
  {
    cursor := begin;
    while cursor < |s| && s[cursor] != QUOTE
      invariant begin <= cursor <= |s|
      invariant begin + FindQuote(s[begin..]) == cursor + FindQuote(s[cursor..])
    {
      assert s[cursor..][1..] == s[cursor + 1..];
      cursor := cursor + 1;
    }
  }

  /** Text already copied, followed by what is still to be found in r. */
  function Continue(text: Bytes, r: Bytes): Option<(Bytes, Bytes)> {
    match QuotedBody(r)
    case None => None
    case Some((value, rest)) => Some((text + value, rest))
  }

  lemma ContinueStart(r: Bytes)
    ensures Continue([], r) == QuotedBody(r)
  {
    match QuotedBody(r)
    case None =>
    case Some((value, rest)) => assert [] + value == value;
  }

  lemma UnfoldBody(r: Bytes, k: nat)
    requires k == FindQuote(r) && 0 < k < |r| && r[k - 1] == BACKSLASH
    ensures QuotedBody(r) == match QuotedBody(r[k + 1..])
      case None => None
      case Some((value, rest)) => Some((r[..k - 1] + [QUOTE] + value, rest))
  {
    hide FindQuote;
  }

  lemma Regroup(a: Bytes, b: Bytes, c: Bytes, d: Bytes)
    ensures a + (b + c + d) == a + b + c + d
  {
  }

  lemma BodyAfterEscape(text: Bytes, r: Bytes, k: nat)
    requires k == FindQuote(r) && 0 < k < |r| && r[k - 1] == BACKSLASH
    ensures Continue(text, r) == Continue(text + r[..k - 1] + [QUOTE], r[k + 1..])
  {
    UnfoldBody(r, k);
    hide FindQuote, QuotedBody;
    match QuotedBody(r[k + 1..])
    case None =>
    case Some((value, _)) => Regroup(text, r[..k - 1], [QUOTE], value);
  }

  lemma ContinueAfterEscape(text: Bytes, s: Bytes, marker: nat, cursor: nat)
    requires 0 < marker <= cursor < |s| && cursor == marker + FindQuote(s[marker..])
    requires s[marker - 1] == QUOTE && s[cursor - 1] == BACKSLASH
    ensures Continue(text, s[marker..]) == Continue(text + s[marker..cursor - 1] + [QUOTE], s[cursor + 1..])
  {
    hide FindQuote, Continue;
    var r := s[marker..];
    var k := cursor - marker;
    assert r[k + 1..] == s[cursor + 1..] && r[..k - 1] == s[marker..cursor - 1] && r[k - 1] == s[cursor - 1];
    BodyAfterEscape(text, r, k);
  }

  lemma ContinueAtEnd(text: Bytes, s: Bytes, marker: nat, cursor: nat)
    requires 0 < marker <= cursor < |s| && cursor == marker + FindQuote(s[marker..])
    requires s[marker - 1] == QUOTE && s[cursor - 1] != BACKSLASH
    ensures Continue(text, s[marker..]) == Some((text + s[marker..cursor], s[cursor + 1..]))
  {
    hide FindQuote;
    var r := s[marker..];
    var k := cursor - marker;
    assert r[k + 1..] == s[cursor + 1..] && r[..k] == s[marker..cursor];
    assert k > 0 ==> r[k - 1] == s[cursor - 1];
  }

  lemma ContinueUnclosed(text: Bytes, r: Bytes)
    requires FindQuote(r) == |r|
    ensures Continue(text, r) == None
  {
  }

  method ExtractQuotedString(s: Bytes, begin: nat) returns (text: Bytes, after: nat)
    requires begin <= |s|
    ensures begin <= after <= |s| && (text, s[after..]) == QuotedString(s[begin..])
  {
    hide FindQuote, QuotedBody, Continue;
    text := [];
    if begin == |s| || s[begin] != QUOTE { return text, begin; }
    ghost var body := QuotedBody(s[begin + 1..]);
    assert s[begin..][1..] == s[begin + 1..];
    ContinueStart(s[begin + 1..]);
    var cursor, marker := begin + 1, begin + 1;
    cursor := FindQuoteFrom(s, cursor);
    while cursor != |s|
      invariant begin < marker <= cursor <= |s| && s[marker - 1] == QUOTE
      invariant cursor == marker + FindQuote(s[marker..])
      invariant Continue(text, s[marker..]) == body
      decreases |s| - cursor
    {
      if s[cursor - 1] == BACKSLASH {
        ContinueAfterEscape(text, s, marker, cursor);
        text := text + s[marker..cursor - 1];
        text := text + [QUOTE];
        cursor := cursor + 1;
        marker := cursor;
      } else {
        ContinueAtEnd(text, s, marker, cursor);
        text := text + s[marker..cursor];
        cursor := cursor + 1;
        return text, cursor;
      }
      cursor := FindQuoteFrom(s, cursor);
    }
    ContinueUnclosed(text, s[marker..]);
    return [], begin;
  }

  /** The part of the loop body of extract_attributes that reads a name and its value. */
  method ExtractItem(s: Bytes, begin: nat) returns (ok: bool, name: Bytes, text: Bytes, cursor: nat)
    requires begin <= |s|
    ensures begin <= cursor <= |s|
    ensures ReadItem(s[begin..]) == if ok then Some(Item(name, text, s[cursor..])) else None
  {
    hide AllLws, TokenLength, QuotedString;
    text := [];
    cursor := ExtractAllLws(s, begin);
    name, cursor := ExtractToken(s, cursor);
    if name == [] { return false, name, text, cursor; }
    cursor := ExtractAllLws(s, cursor);
    if cursor == |s| || s[cursor] != EQUALS { return true, name, [], cursor; }
    assert s[cursor..][1..] == s[cursor + 1..];
    cursor := cursor + 1;
    cursor := ExtractAllLws(s, cursor);
    if cursor == |s| { return false, name, text, cursor; }
    var after;
    text, after := ExtractQuotedString(s, cursor);
    if after != cursor { return true, name, text, after; }
    text, cursor := ExtractToken(s, cursor);
    ok := text != [];
  }

  method ExtractAttributes(s: Bytes, begin: nat, attributes: Attributes) returns (extended: Attributes, cursor: nat)
    requires begin <= |s|
    ensures begin <= cursor <= |s| && (extended, s[cursor..]) == AttributesIn(s[begin..], attributes)
  {
    hide AllLws, TokenLength, QuotedString, ReadItem;
    extended, cursor := attributes, begin;
    if begin == |s| { return; }
    var first := true;
    while cursor != |s|
      invariant begin <= cursor <= |s|
      invariant AttributeLoop(s[cursor..], first, extended) == AttributeLoop(s[begin..], true, attributes)
      decreases |s| - cursor
    {
      cursor := ExtractAllLws(s, cursor);
      if cursor == |s| { break; }
      if first {
        first := false;
      } else {
        if s[cursor] == SEMICOLON {
          assert s[cursor..][1..] == s[cursor + 1..];
          cursor := cursor + 1;
        } else {
          break;
        }
      }
      var ok, name, text, after := ExtractItem(s, cursor);
      if !ok { return extended, begin; }
      extended, cursor := extended[name := text], after;
    }
  }

  /** The part of the loop body of extract_parameters that reads a name and its attributes. */
  method ExtractParameter(s: Bytes, begin: nat) returns (ok: bool, p: (Bytes, Attributes), cursor: nat)
    requires begin <= |s|
    ensures begin <= cursor <= |s|
    ensures ReadParameter(s[begin..]) == if ok then Some((p, s[cursor..])) else None
  {
    hide AllLws, TokenLength, AttributesIn;
    var name;
    name, cursor := ExtractToken(s, begin);
    if name == [] { return false, (name, map[]), cursor; }
    cursor := ExtractAllLws(s, cursor);
    if cursor == |s| || s[cursor] != SEMICOLON { return true, (name, map[]), cursor; }
    assert s[cursor..][1..] == s[cursor + 1..];
    cursor := cursor + 1;
    var attributes, after := ExtractAttributes(s, cursor, map[]);
    return after != cursor, (name, attributes), after;
  }

  method ExtractParameters(s: Bytes, begin: nat) returns (parameters: Parameters, cursor: nat)
    requires begin <= |s|
    ensures begin <= cursor <= |s| && (parameters, s[cursor..]) == ParametersIn(s[begin..])
  {
    hide AllLws, ReadParameter;
    parameters, cursor := [], begin;
    if begin == |s| { return; }
    while cursor != |s|
      invariant begin <= cursor <= |s|
      invariant ParameterLoop(s[cursor..], parameters) == ParameterLoop(s[begin..], [])
      decreases |s| - cursor
    {
      cursor := ExtractAllLws(s, cursor);
      if cursor == |s| { break; }
      var ok, p, after := ExtractParameter(s, cursor);
      if !ok { return parameters, begin; }
      parameters := parameters + [p];
      cursor := ExtractAllLws(s, after);
      if cursor == |s| { break; }
      if s[cursor] != COMMA { break; }
      assert s[cursor..][1..] == s[cursor + 1..];
      cursor := cursor + 1;
      if cursor == |s| { return parameters, begin; }
    }
  }
}
