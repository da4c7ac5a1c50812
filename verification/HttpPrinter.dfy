/** Writing parameter lists down, and reading them back: whatever the white space between the
    elements, parsing returns the list that was printed. */
module HttpPrinter {
  import opened Messages
  import opened HttpParser

  // ---- linear white space ----

  /** Nothing that white space could go on into. */
  predicate Stops(r: Bytes) { r == [] || r[0] !in {TAB, SPACE, CR} }

  lemma {:induction false} SkipPart(w: Bytes, rest: Bytes) returns (w': Bytes)
    requires IsLws(w) && Stops(rest)
    ensures SkipWhitespace(w + rest) == w' + rest && IsLws(w') && |w'| <= |w|
    ensures w != [] && IsWhitespace(w[0]) ==> |w'| < |w|
    decreases |w|
  {
    if w != [] && IsWhitespace(w[0]) {
      assert (w + rest)[1..] == w[1..] + rest;
      w' := SkipPart(w[1..], rest);
    } else {
      w' := w;
    }
  }

  lemma {:induction false} SkipLws(w: Bytes, rest: Bytes)
    requires IsLws(w) && Stops(rest)
    ensures AllLws(w + rest) == rest
    decreases |w|
  {
    if w == [] {
      assert w + rest == rest;
    } else {
      var w';
      if StartsFold(w) {
        assert (w + rest)[3..] == w[3..] + rest;
        w' := SkipPart(w[3..], rest);
      } else {
        w' := SkipPart(w, rest);
      }
      assert Lws(w + rest) == w' + rest;
      SkipLws(w', rest);
    }
  }

  // ---- tokens ----

  predicate TokenChars(t: Bytes) { forall i | 0 <= i < |t| :: IsTokenChar(t[i]) }

  predicate IsToken(t: Bytes) { t != [] && TokenChars(t) }

  predicate EndsToken(r: Bytes) { r == [] || !IsTokenChar(r[0]) }

  lemma {:induction false} ReadToken(t: Bytes, rest: Bytes)
    requires TokenChars(t) && EndsToken(rest)
    ensures TokenLength(t + rest) == |t|
  {
    hide IsTokenChar;
    if t == [] {
      assert t + rest == rest;
    } else {
      assert (t + rest)[1..] == t[1..] + rest;
      ReadToken(t[1..], rest);
    }
  }

  // ---- quoted strings ----

  function Escape(v: Bytes): Bytes {
    if v == [] then []
    else (if v[0] == QUOTE then [BACKSLASH, QUOTE] else [v[0]]) + Escape(v[1..])
  }

  function Quoted(v: Bytes): Bytes { [QUOTE] + Escape(v) + [QUOTE] }

  predicate EndsInBackslash(v: Bytes) { v != [] && v[|v| - 1] == BACKSLASH }

  lemma {:induction false} FirstQuote(a: Bytes, tail: Bytes)
    requires QUOTE !in a
    ensures FindQuote(a + [QUOTE] + tail) == |a|
  {
    var r := a + [QUOTE] + tail;
    if a != [] {
      assert r[1..] == a[1..] + [QUOTE] + tail;
      FirstQuote(a[1..], tail);
    }
  }

  /** A quote ends the value, unless a backslash comes before it. */
  lemma BodyAtQuote(a: Bytes, tail: Bytes)
    requires QUOTE !in a
    ensures var q := QuotedBody(a + [QUOTE] + tail);
            if !EndsInBackslash(a) then q == Some((a, tail))
            else match QuotedBody(tail)
              case None => q == None
              case Some((value, rest)) => q == Some((a[..|a| - 1] + [QUOTE] + value, rest))
  {
    FirstQuote(a, tail);
    hide FindQuote;
    var r := a + [QUOTE] + tail;
    assert r[..|a|] == a && r[|a| + 1..] == tail;
    if EndsInBackslash(a) {
      assert r[..|a| - 1] == a[..|a| - 1];
    }
  }

  /** What is scanned of a printed value: the part a since the last quote, then v. */
  function Scanned(a: Bytes, v: Bytes, rest: Bytes): Bytes { a + Escape(v) + [QUOTE] + rest }

  lemma ScanQuote(a: Bytes, v: Bytes, rest: Bytes)
    requires v != [] && v[0] == QUOTE
    ensures Scanned(a, v, rest) == (a + [BACKSLASH]) + [QUOTE] + Scanned([], v[1..], rest)
  {
    var e := Escape(v[1..]);
    var b := a + [BACKSLASH] + [QUOTE];
    assert Escape(v) == [BACKSLASH] + ([QUOTE] + e);
    assert a + Escape(v) == b + e;
    hide Escape;
    assert [] + e == e;
    assert b + e + [QUOTE] + rest == b + (e + [QUOTE] + rest);
  }

  lemma ScanOther(a: Bytes, v: Bytes, rest: Bytes)
    requires v != [] && v[0] != QUOTE
    ensures Scanned(a, v, rest) == Scanned(a + [v[0]], v[1..], rest)
  {
    var e := Escape(v[1..]);
    assert Escape(v) == [v[0]] + e;
    hide Escape;
    assert a + ([v[0]] + e) == (a + [v[0]]) + e;
  }

  predicate Reads(q: Option<(Bytes, Bytes)>, v: Bytes, rest: Bytes) {
    if EndsInBackslash(v) then q == None || |q.value.1| < |rest| else q == Some((v, rest))
  }

  lemma QuoteInside(a: Bytes, v: Bytes, rest: Bytes)
    requires QUOTE !in a && v != [] && v[0] == QUOTE
    requires Reads(QuotedBody(Scanned([], v[1..], rest)), v[1..], rest)
    ensures Reads(QuotedBody(Scanned(a, v, rest)), a + v, rest)
  {
    hide QuotedBody, Scanned;
    ScanQuote(a, v, rest);
    BodyAtQuote(a + [BACKSLASH], Scanned([], v[1..], rest));
    assert (a + [BACKSLASH])[..|a|] == a;
    assert a + [QUOTE] + v[1..] == a + v;
  }

  lemma NothingLeft(a: Bytes, v: Bytes, rest: Bytes)
    requires QUOTE !in a && v == []
    ensures Reads(QuotedBody(Scanned(a, v, rest)), a + v, rest)
  {
    hide QuotedBody, Scanned;
    EmptyScan(a, rest);
    assert a + v == a;
    BodyAtQuote(a, rest);
  }

  lemma OtherInside(a: Bytes, v: Bytes, rest: Bytes)
    requires v != [] && v[0] != QUOTE
    requires Reads(QuotedBody(Scanned(a + [v[0]], v[1..], rest)), a + [v[0]] + v[1..], rest)
    ensures Reads(QuotedBody(Scanned(a, v, rest)), a + v, rest)
  {
    hide QuotedBody, Scanned, Reads;
    ScanOther(a, v, rest);
    assert (a + [v[0]]) + v[1..] == a + v;
  }

  /** With a already scanned since the last quote, and v still to come. */
  lemma {:induction false} ReadQuotedBody(a: Bytes, v: Bytes, rest: Bytes)
    requires QUOTE !in a
    ensures Reads(QuotedBody(Scanned(a, v, rest)), a + v, rest)
    decreases |v|
  {
    hide QuotedBody, Scanned, Reads;
    if v == [] {
      NothingLeft(a, v, rest);
    } else if v[0] == QUOTE {
      ReadQuotedBody([], v[1..], rest);
      assert [] + v[1..] == v[1..];
      QuoteInside(a, v, rest);
    } else {
      ReadQuotedBody(a + [v[0]], v[1..], rest);
      OtherInside(a, v, rest);
    }
  }

  lemma EmptyScan(a: Bytes, rest: Bytes)
    ensures Scanned(a, [], rest) == a + [QUOTE] + rest
  {
    assert a + Escape([]) == a;
  }

  /** A quoted value reads back, whatever follows it, exactly when it does not end in a
      backslash: its closing quote would be taken for an escaped one. */
  lemma QuotedReadsBack(v: Bytes, rest: Bytes)
    ensures QuotedString(Quoted(v) + rest) == (v, rest) <==> !EndsInBackslash(v)
  {
    var r := Quoted(v) + rest;
    assert r[1..] == Scanned([], v, rest);
    assert [] + v == v;
    ReadQuotedBody([], v, rest);
  }

  // ---- attributes ----

  datatype Value = Absent | Bare(token: Bytes) | QuotedText(text: Bytes)

  function PrintValue(value: Value, gap: Bytes, tail: Bytes): Bytes {
    match value
    case Absent => []
    case Bare(token) => [EQUALS] + gap + token + tail
    case QuotedText(text) => [EQUALS] + gap + Quoted(text) + tail
  }

  /** An attribute as it is written, with the white space around its name and its value. */
  datatype Attribute = Attribute(before: Bytes, name: Bytes, after: Bytes, value: Value, gap: Bytes, tail: Bytes)
  {
    ghost predicate Valid() {
      && IsLws(before) && IsToken(name) && IsLws(after) && IsLws(gap) && IsLws(tail)
      && (value.Bare? ==> IsToken(value.token))
      && (value.QuotedText? ==> !EndsInBackslash(value.text))
    }

    function Text(): Bytes {
      match value
      case Absent => []
      case Bare(token) => token
      case QuotedText(text) => text
    }

    function Print(): Bytes {
      before + name + after + PrintValue(value, gap, tail)
    }

    /** The white space that reading the attribute leaves in place. */
    function Left(): Bytes {
      if value == Absent then [] else tail
    }
  }

  function PrintAttributes(attributes: seq<Attribute>): Bytes {
    if attributes == [] then []
    else [SEMICOLON] + attributes[0].Print() + PrintAttributes(attributes[1..])
  }

  /** A later attribute of the same name replaces the earlier one. */
  function MapOf(attributes: seq<Attribute>, m: Attributes): Attributes {
    if attributes == [] then m
    else MapOf(attributes[1..], m[attributes[0].name := attributes[0].Text()])
  }

  /** What may follow an attribute: nothing that would go on with it. */
  predicate Follows(rest: Bytes) { Stops(rest) && EndsToken(rest) && (rest == [] || rest[0] != EQUALS) }

  /** What may follow a list of attributes. */
  predicate EndsList(rest: Bytes) { Follows(rest) && (rest == [] || rest[0] != SEMICOLON) }

  lemma SyntaxFollows(rest: Bytes)
    requires rest == [] || rest[0] in {SEMICOLON, COMMA}
    ensures Follows(rest) && (rest == [] || rest[0] == COMMA ==> EndsList(rest))
  {
    if rest != [] { Delimiters(rest[0]); }
  }

  lemma TokenStops(t: Bytes, rest: Bytes)
    requires IsToken(t)
    ensures Stops(t + rest)
  {
    Delimiters(TAB);
    Delimiters(SPACE);
    Delimiters(CR);
  }

  /** White space ends a token, and so does what may follow it. */
  lemma LwsEndsToken(w: Bytes, rest: Bytes)
    requires IsLws(w) && EndsToken(rest)
    ensures EndsToken(w + rest)
  {
    if w != [] {
      Delimiters(w[0]);
    } else {
      assert w + rest == rest;
    }
  }

  /** What extract_token sees of a token and of what comes after it. */
  predicate TokenThen(r: Bytes, t: Bytes, rest: Bytes) {
    TokenLength(r) == |t| && |t| <= |r| && r[..|t|] == t && r[|t|..] == rest
  }

  lemma ReadWholeToken(t: Bytes, rest: Bytes)
    requires IsToken(t) && EndsToken(rest)
    ensures TokenThen(t + rest, t, rest)
  {
    hide TokenLength, TokenChars;
    ReadToken(t, rest);
  }

  lemma Nest(a: Bytes, b: Bytes, c: Bytes, d: Bytes)
    ensures a + b + c + d == a + (b + (c + d))
  {
  }

  lemma ReadName(before: Bytes, name: Bytes, after: Bytes, rest: Bytes)
    requires IsLws(before) && IsToken(name) && IsLws(after)
    requires Stops(rest) && EndsToken(rest)
    ensures TokenThen(AllLws(before + name + after + rest), name, after + rest)
    ensures AllLws(after + rest) == rest
  {
    var u := after + rest;
    Nest(before, name, after, rest);
    TokenStops(name, u);
    LwsEndsToken(after, rest);
    hide *;
    SkipLws(before, name + u);
    ReadWholeToken(name, u);
    SkipLws(after, rest);
  }

  lemma ReadBareValue(gap: Bytes, token: Bytes, tail: Bytes, rest: Bytes)
    requires IsLws(gap) && IsToken(token) && IsLws(tail) && Follows(rest)
    ensures ReadValue(gap + token + tail + rest) == Some((token, tail + rest))
  {
    var u := tail + rest;
    Nest(gap, token, tail, rest);
    TokenStops(token, u);
    LwsEndsToken(tail, rest);
    TokenIsUnquoted(token, u);
    TokenNotEmpty(token);
    hide AllLws, IsLws, TokenLength, QuotedString, IsToken, Stops, EndsToken, Follows;
    SkipLws(gap, token + u);
    ReadWholeToken(token, u);
  }

  lemma TokenIsUnquoted(token: Bytes, u: Bytes)
    requires IsToken(token)
    ensures QuotedString(token + u) == ([], token + u)
  {
    Delimiters(QUOTE);
    assert (token + u)[0] == token[0];
  }

  lemma ReadQuotedValue(gap: Bytes, text: Bytes, tail: Bytes, rest: Bytes)
    requires IsLws(gap) && !EndsInBackslash(text)
    ensures ReadValue(gap + Quoted(text) + tail + rest) == Some((text, tail + rest))
  {
    hide AllLws, IsLws, Escape, TokenLength, QuotedString;
    var u := tail + rest;
    var q := Quoted(text);
    assert gap + q + tail + rest == gap + (q + u);
    assert (q + u)[0] == QUOTE;
    SkipLws(gap, q + u);
    QuotedReadsBack(text, u);
  }

  lemma ReadNameAndValue(before: Bytes, name: Bytes, after: Bytes, v: Bytes)
    requires IsLws(before) && IsToken(name) && IsLws(after)
    ensures ReadItem(before + name + after + ([EQUALS] + v)) == match ReadValue(v)
      case None => None
      case Some((text, rest)) => Some(Item(name, text, rest))
  {
    hide AllLws, IsLws, ReadValue, TokenLength;
    Delimiters(EQUALS);
    ReadName(before, name, after, [EQUALS] + v);
    assert ([EQUALS] + v)[1..] == v;
  }

  lemma PrintWithValue(a: Attribute, rest: Bytes) returns (v: Bytes)
    requires a.value != Absent
    ensures a.Print() + rest == a.before + a.name + a.after + ([EQUALS] + v)
    ensures a.value.Bare? ==> v == a.gap + a.value.token + a.tail + rest
    ensures a.value.QuotedText? ==> v == a.gap + Quoted(a.value.text) + a.tail + rest
  {
    hide Quoted;
    var shown := if a.value.Bare? then a.value.token else Quoted(a.value.text);
    v := a.gap + shown + a.tail + rest;
    assert PrintValue(a.value, a.gap, a.tail) + rest == [EQUALS] + v;
  }

  lemma ReadPrinted(a: Attribute, rest: Bytes)
    requires a.Valid() && Follows(rest)
    ensures ReadItem(a.Print() + rest) == Some(Item(a.name, a.Text(), a.Left() + rest))
  {
    hide AllLws, IsLws, IsToken, TokenLength, ReadValue, EndsInBackslash;
    if a.value == Absent {
      assert a.Print() + rest == a.before + a.name + a.after + rest;
      assert a.Left() + rest == rest;
      TokenNotEmpty(a.name);
      ReadName(a.before, a.name, a.after, rest);
    } else {
      hide ReadItem, Attribute.Print;
      var v := PrintWithValue(a, rest);
      ReadNameAndValue(a.before, a.name, a.after, v);
      if a.value.Bare? {
        ReadBareValue(a.gap, a.value.token, a.tail, rest);
      } else {
        ReadQuotedValue(a.gap, a.value.text, a.tail, rest);
      }
    }
  }

  lemma NothingToSkip(rest: Bytes)
    requires Follows(rest)
    ensures AllLws(rest) == rest
  {
    SkipLws([], rest);
    assert [] + rest == rest;
  }

  lemma LoopSkipsLws(w: Bytes, rest: Bytes, m: Attributes)
    requires IsLws(w) && Follows(rest)
    ensures AttributeLoop(w + rest, false, m) == AttributeLoop(rest, false, m)
  {
    hide AllLws, ReadItem;
    SkipLws(w, rest);
    NothingToSkip(rest);
  }

  lemma AfterAttribute(a: Attribute, rest: Bytes, m: Attributes)
    requires a.Valid() && Follows(rest)
    ensures AttributeLoop(a.Left() + rest, false, m) == AttributeLoop(rest, false, m)
  {
    LoopSkipsLws(a.Left(), rest, m);
  }

  lemma LoopReadsPrinted(a: Attribute, more: Bytes, m: Attributes)
    requires a.Valid() && Follows(more)
    ensures AttributeLoop([SEMICOLON] + (a.Print() + more), false, m)
         == AttributeLoop(more, false, m[a.name := a.Text()])
  {
    hide AllLws, ReadItem, Attribute.Print, Attribute.Left, Attribute.Text, Attribute.Valid;
    var r := [SEMICOLON] + (a.Print() + more);
    NothingToSkip(r);
    assert r[1..] == a.Print() + more;
    ReadPrinted(a, more);
    AfterAttribute(a, more, m[a.name := a.Text()]);
  }

  /** A printed list reads back, from its first semicolon. */
  lemma {:induction false} ReadAttributes(attributes: seq<Attribute>, rest: Bytes, m: Attributes)
    requires forall a | a in attributes :: a.Valid()
    requires EndsList(rest)
    ensures AttributeLoop(PrintAttributes(attributes) + rest, false, m)
         == AttributeResult(MapOf(attributes, m), Some(rest))
    decreases |attributes|
  {
    hide Attribute.Print, Attribute.Text, Attribute.Valid;
    if attributes == [] {
      assert PrintAttributes(attributes) + rest == rest;
      hide AllLws;
      NothingToSkip(rest);
    } else {
      hide AttributeLoop;
      var a := attributes[0];
      var more := PrintAttributes(attributes[1..]) + rest;
      assert PrintAttributes(attributes) + rest == [SEMICOLON] + (a.Print() + more);
      ListFollows(attributes[1..], rest);
      LoopReadsPrinted(a, more, m);
      ReadAttributes(attributes[1..], rest, m[a.name := a.Text()]);
    }
  }

  // ---- parameters ----

  datatype Parameter = Parameter(before: Bytes, name: Bytes, after: Bytes, attributes: seq<Attribute>) {
    ghost predicate Valid() {
      && IsLws(before) && IsToken(name) && IsLws(after)
      && forall a | a in attributes :: a.Valid()
    }

    function Print(): Bytes {
      before + name + after + PrintAttributes(attributes)
    }

    function Meaning(): (Bytes, Attributes) {
      (name, MapOf(attributes, map[]))
    }
  }

  function PrintParameters(ps: seq<Parameter>): Bytes
    requires ps != []
  {
    if |ps| == 1 then ps[0].Print()
    else ps[0].Print() + [COMMA] + PrintParameters(ps[1..])
  }

  function Meanings(ps: seq<Parameter>): Parameters {
    if ps == [] then [] else [ps[0].Meaning()] + Meanings(ps[1..])
  }

  lemma StripFirst(a: Attribute, more: Bytes)
    requires a.Valid()
    ensures AllLws(a.Print() + more) == a.(before := []).Print() + more
  {
    hide AllLws, IsLws, IsToken, PrintValue;
    var u := a.after + PrintValue(a.value, a.gap, a.tail) + more;
    assert a.Print() + more == a.before + (a.name + u);
    assert a.(before := []).Print() + more == a.name + u;
    TokenStops(a.name, u);
    SkipLws(a.before, a.name + u);
  }

  lemma Stripped(a: Attribute)
    requires a.Valid()
    ensures a.Print() != [] && a.(before := []).Print() != []
    ensures a.(before := []).Valid() && a.(before := []).Text() == a.Text() && a.(before := []).Left() == a.Left()
  {
  }

  /** The first attribute is read after the white space before it is dropped. */
  lemma ReadFirst(a: Attribute, more: Bytes)
    requires a.Valid() && Follows(more)
    ensures AttributeLoop(a.Print() + more, true, map[]) == AttributeLoop(more, false, map[a.name := a.Text()])
  {
    hide AllLws, ReadItem, Attribute.Print, Attribute.Left, Attribute.Text, Attribute.Valid;
    Stripped(a);
    StripFirst(a, more);
    ReadPrinted(a.(before := []), more);
    AfterAttribute(a, more, map[a.name := a.Text()]);
  }

  lemma SplitList(attributes: seq<Attribute>, rest: Bytes)
    requires attributes != []
    ensures var w := PrintAttributes(attributes) + rest;
            w != [] && w[1..] == attributes[0].Print() + (PrintAttributes(attributes[1..]) + rest)
  {
    hide Attribute.Print;
  }

  lemma ReadAttributeList(attributes: seq<Attribute>, rest: Bytes)
    requires attributes != [] && forall a | a in attributes :: a.Valid()
    requires EndsList(rest)
    ensures var w := PrintAttributes(attributes) + rest;
            w != [] && AttributesIn(w[1..], map[]) == (MapOf(attributes, map[]), rest) && |rest| < |w[1..]|
  {
    hide AttributeLoop, PrintAttributes, Attribute.Print, Attribute.Text, Attribute.Valid, IsTokenChar;
    var a := attributes[0];
    var more := PrintAttributes(attributes[1..]) + rest;
    SplitList(attributes, rest);
    Stripped(a);
    ListFollows(attributes[1..], rest);
    ReadFirst(a, more);
    ReadAttributes(attributes[1..], rest, map[a.name := a.Text()]);
  }

  lemma ListFollows(attributes: seq<Attribute>, rest: Bytes)
    requires EndsList(rest)
    ensures Follows(PrintAttributes(attributes) + rest)
  {
    ListStart(attributes, rest);
    if attributes != [] { SyntaxFollows(PrintAttributes(attributes) + rest); }
  }

  lemma ReadOneParameter(p: Parameter, rest: Bytes)
    requires p.Valid() && EndsList(rest)
    ensures AllLws(p.Print() + rest) != []
    ensures ReadParameter(AllLws(p.Print() + rest)) == Some((p.Meaning(), rest))
  {
    hide AllLws, IsLws, IsToken, TokenLength, AttributesIn, PrintAttributes, MapOf;
    var w := PrintAttributes(p.attributes) + rest;
    assert p.Print() + rest == p.before + p.name + p.after + w;
    ListStart(p.attributes, rest);
    ListFollows(p.attributes, rest);
    ReadName(p.before, p.name, p.after, w);
    TokenNotEmpty(p.name);
    if p.attributes != [] {
      ReadAttributeList(p.attributes, rest);
    }
  }

  lemma TokenNotEmpty(t: Bytes)
    requires IsToken(t)
    ensures |t| > 0
  {
  }

  lemma ListStart(attributes: seq<Attribute>, rest: Bytes)
    ensures var w := PrintAttributes(attributes) + rest;
            if attributes == [] then w == rest && MapOf(attributes, map[]) == map[]
            else w != [] && w[0] == SEMICOLON
  {
  }

  /** What is printed after the first parameter. */
  function Rest(ps: seq<Parameter>): Bytes
    requires ps != []
  {
    if |ps| == 1 then [] else [COMMA] + PrintParameters(ps[1..])
  }

  lemma SplitParameters(ps: seq<Parameter>)
    requires ps != [] && ps[0].Valid()
    ensures PrintParameters(ps) == ps[0].Print() + Rest(ps)
    ensures PrintParameters(ps) != []
  {
    hide PrintAttributes;
    TokenNotEmpty(ps[0].name);
  }

  /** What the loop makes of the text after a list of parameters. */
  function AfterList(ps: Parameters, tail: Bytes): ParameterResult {
    if tail == [] || tail[0] != COMMA then ParameterResult(ps, Some(tail))
    else if |tail| == 1 then ParameterResult(ps, None)
    else ParameterLoop(tail[1..], ps)
  }

  lemma ReadLast(p: Parameter, before: Parameters, tail: Bytes)
    requires p.Valid() && EndsList(tail)
    ensures ParameterLoop(p.Print() + tail, before) == AfterList(before + [p.Meaning()], tail)
  {
    hide AllLws, ReadParameter, Parameter.Print, Parameter.Meaning, Parameter.Valid;
    ReadOneParameter(p, tail);
    NothingToSkip(tail);
  }

  lemma JustOne(ps: seq<Parameter>)
    requires |ps| == 1
    ensures PrintParameters(ps) == ps[0].Print() && Meanings(ps) == [ps[0].Meaning()]
  {
    assert ps[1..] == [];
  }

  lemma OneMore(ps: seq<Parameter>, before: Parameters, tail: Bytes)
    requires |ps| > 1
    ensures PrintParameters(ps) + tail == ps[0].Print() + ([COMMA] + (PrintParameters(ps[1..]) + tail))
    ensures before + [ps[0].Meaning()] + Meanings(ps[1..]) == before + Meanings(ps)
  {
    hide Parameter.Print, Parameter.Meaning;
    var more := PrintParameters(ps[1..]);
    assert PrintParameters(ps) == ps[0].Print() + [COMMA] + more;
    hide PrintParameters;
    Nest(ps[0].Print(), [COMMA], more, tail);
  }

  lemma {:induction false} ReadParameters(ps: seq<Parameter>, before: Parameters, tail: Bytes)
    requires ps != [] && (forall p | p in ps :: p.Valid()) && EndsList(tail)
    ensures ParameterLoop(PrintParameters(ps) + tail, before) == AfterList(before + Meanings(ps), tail)
    decreases |ps|
  {
    hide ParameterLoop, PrintParameters, Meanings, Parameter.Print, Parameter.Meaning, Parameter.Valid;
    var p := ps[0];
    if |ps| == 1 {
      JustOne(ps);
      ReadLast(p, before, tail);
    } else {
      var more := PrintParameters(ps[1..]) + tail;
      OneMore(ps, before, tail);
      SyntaxFollows([COMMA] + more);
      ReadLast(p, before, [COMMA] + more);
      SplitParameters(ps[1..]);
      assert ([COMMA] + more)[1..] == more;
      ReadParameters(ps[1..], before + [p.Meaning()], tail);
    }
  }

  /** Parsing inverts printing: extract_parameters reaches the end of what was printed and
      returns the names in order, each with its attributes. */
  lemma ParsingInvertsPrinting(ps: seq<Parameter>)
    requires ps != [] && forall p | p in ps :: p.Valid()
    ensures ParametersIn(PrintParameters(ps)) == (Meanings(ps), [])
  {
    hide ParameterLoop, PrintParameters, Meanings, Parameter.Valid;
    assert PrintParameters(ps) + [] == PrintParameters(ps);
    SyntaxFollows([]);
    ReadParameters(ps, [], []);
    assert [] + Meanings(ps) == Meanings(ps);
  }

  // ---- what is not a list ----

  /** A list that is followed by something else is read up to there. */
  lemma StopsAtOther(ps: seq<Parameter>, tail: Bytes)
    requires ps != [] && forall p | p in ps :: p.Valid()
    requires EndsList(tail) && tail != [] && tail[0] as char != ','
    ensures ParametersIn(PrintParameters(ps) + tail) == (Meanings(ps), tail)
  {
    ReadParameters(ps, [], tail);
    assert [] + Meanings(ps) == Meanings(ps);
  }

  /** A comma at the very end is an error, which leaves all of the input, with the parameters
      already in the list; white space after the comma makes it right. */
  lemma TrailingComma(ps: seq<Parameter>, w: Bytes)
    requires ps != [] && (forall p | p in ps :: p.Valid()) && IsLws(w)
    ensures var r := PrintParameters(ps) + (Ascii(",") + w);
            ParametersIn(r) == (Meanings(ps), if w == [] then r else [])
  {
    var tail := Ascii(",") + w;
    assert tail[0] == COMMA && tail[1..] == w;
    SyntaxFollows(tail);
    ReadParameters(ps, [], tail);
    assert [] + Meanings(ps) == Meanings(ps);
    AllBlank(w);
  }

  lemma AllBlank(w: Bytes)
    requires IsLws(w)
    ensures AllLws(w) == []
  {
    SkipLws(w, []);
    assert w + [] == w;
  }

  /** So is anything but a parameter name after a comma, or at the beginning. */
  lemma NoName(ps: seq<Parameter>, w: Bytes, other: Bytes)
    requires (forall p | p in ps :: p.Valid()) && IsLws(w)
    requires other != [] && Stops(other) && EndsToken(other)
    ensures var r := (if ps == [] then [] else PrintParameters(ps) + Ascii(",")) + (w + other);
            ParametersIn(r) == (Meanings(ps), r)
  {
    SkipLws(w, other);
    if ps == [] {
      assert [] + (w + other) == w + other;
    } else {
      var tail := Ascii(",") + (w + other);
      assert PrintParameters(ps) + Ascii(",") + (w + other) == PrintParameters(ps) + tail;
      assert tail[0] == COMMA && tail[1..] == w + other;
      SyntaxFollows(tail);
      ReadParameters(ps, [], tail);
      assert [] + Meanings(ps) == Meanings(ps);
    }
  }

  /** An attribute without a name, or without a value after its equals sign, is an error; so is
      a quoted value that is not closed. */
  lemma NoItem(a: Attribute, gap: Bytes, other: Bytes)
    requires a.Valid() && IsLws(gap) && Stops(other) && EndsToken(other)
    ensures ReadItem(gap + other) == None
    ensures other == [] || other[0] as char != '"' || QUOTE !in other[1..] ==>
              ReadItem(a.before + a.name + a.after + (Ascii("=") + (gap + other))) == None
  {
    hide AllLws, IsLws, IsToken, TokenLength;
    SkipLws(gap, other);
    NoToken(other);
    if other == [] || other[0] != QUOTE || QUOTE !in other[1..] {
      Unquoted(other);
      hide ReadItem;
      assert Ascii("=") == [EQUALS];
      ReadNameAndValue(a.before, a.name, a.after, gap + other);
    }
  }

  /** So is a semicolon with no attribute after it, unless white space is all that follows. */
  lemma EmptyAttributes(p: Parameter, gap: Bytes, other: Bytes)
    requires p.Valid() && p.attributes == [] && IsLws(gap) && Stops(other) && EndsToken(other)
    ensures var r := p.Print() + (Ascii(";") + (gap + other));
            ParametersIn(r) == if gap != [] && other == [] then ([p.Meaning()], []) else ([], r)
  {
    hide AllLws, IsLws, IsToken, TokenLength, IsTokenChar, ReadItem, AttributesIn;
    var w := Ascii(";") + (gap + other);
    assert w[0] == SEMICOLON && w[1..] == gap + other;
    SyntaxFollows(w);
    assert p.Print() + w == p.before + p.name + p.after + w;
    ReadName(p.before, p.name, p.after, w);
    TokenNotEmpty(p.name);
    NoAttributesIn(gap, other);
    SkipNothing();
    var r := AllLws(p.Print() + w);
    assert ReadParameter(r) == if gap != [] && other == [] then Some((p.Meaning(), [])) else None;
    assert [] + [p.Meaning()] == [p.Meaning()];
    assert r != [];
  }

  lemma NoAttributesIn(gap: Bytes, other: Bytes)
    requires IsLws(gap) && Stops(other) && EndsToken(other)
    ensures AttributesIn(gap + other, map[]) == (map[], if other == [] then [] else gap + other)
  {
    hide AllLws, IsLws, ReadItem;
    SkipLws(gap, other);
    NothingToRead(other);
  }

  lemma NothingToRead(other: Bytes)
    requires Stops(other) && EndsToken(other)
    ensures ReadItem(other) == None
  {
    assert [] + other == other;
    SkipLws([], other);
    NoToken(other);
  }

  lemma SkipNothing()
    ensures AllLws([]) == []
  {
  }

  lemma NoToken(r: Bytes)
    requires EndsToken(r)
    ensures TokenLength(r) == 0
  {
  }

  /** What does not start with a quote, or has no second one, is no quoted string. */
  lemma Unquoted(r: Bytes)
    requires r == [] || r[0] as char != '"' || QUOTE !in r[1..]
    ensures QuotedString(r) == ([], r)
  {
    if r != [] && r[0] == QUOTE { NoQuote(r[1..]); }
  }

  lemma {:induction false} NoQuote(r: Bytes)
    requires QUOTE !in r
    ensures FindQuote(r) == |r|
  {
    if r != [] { NoQuote(r[1..]); }
  }

  lemma LowerCaseOrDigits(t: string)
    requires t != "" && forall i | 0 <= i < |t| :: 'a' <= t[i] <= 'z' || '0' <= t[i] <= '9'
    ensures IsToken(Ascii(t))
  {
    hide IsTokenChar;
    forall i | 0 <= i < |t|
      ensures IsTokenChar(Ascii(t)[i])
    {
      TokenAlphabet(Ascii(t)[i]);
    }
  }

  /** A header to the letter: a name, an attribute with a value, and another name, written in
      lower-case letters and digits. */
  lemma Offer(name: string, attribute: string, value: string, other: string)
    requires forall t | t in [name, attribute, value, other] ::
               t != "" && forall i | 0 <= i < |t| :: 'a' <= t[i] <= 'z' || '0' <= t[i] <= '9'
    ensures ParametersIn(Ascii(name) + Ascii("; ") + Ascii(attribute) + Ascii("=") + Ascii(value) + Ascii(", ") + Ascii(other))
         == ([(Ascii(name), map[Ascii(attribute) := Ascii(value)]), (Ascii(other), map[])], [])
  {
    assert name in [name, attribute, value, other] && attribute in [name, attribute, value, other];
    assert value in [name, attribute, value, other] && other in [name, attribute, value, other];
    LowerCaseOrDigits(name);
    LowerCaseOrDigits(attribute);
    LowerCaseOrDigits(value);
    LowerCaseOrDigits(other);
    OfferRead(Ascii(name), Ascii(attribute), Ascii(value), Ascii(other));
  }

  lemma Signs()
    ensures Ascii("; ") == [SEMICOLON] + Ascii(" ") && Ascii(", ") == [COMMA] + Ascii(" ") && Ascii("=") == [EQUALS]
    ensures IsLws(Ascii(" "))
  {
    assert Ascii(" ")[1..] == [];
  }

  lemma OfferText(name: Bytes, attribute: Bytes, value: Bytes, other: Bytes, space: Bytes)
    ensures (name + [SEMICOLON] + space + attribute + [EQUALS] + value) + [COMMA] + (space + other)
         == name + ([SEMICOLON] + space) + attribute + [EQUALS] + value + ([COMMA] + space) + other
  {
  }

  lemma OfferRead(name: Bytes, attribute: Bytes, value: Bytes, other: Bytes)
    requires IsToken(name) && IsToken(attribute) && IsToken(value) && IsToken(other)
    ensures ParametersIn(name + Ascii("; ") + attribute + Ascii("=") + value + Ascii(", ") + other)
         == ([(name, map[attribute := value]), (other, map[])], [])
  {
    Signs();
    var a := Attribute(Ascii(" "), attribute, [], Bare(value), [], []);
    var p := Parameter([], name, [], [a]);
    var q := Parameter(Ascii(" "), other, [], []);
    assert p.Valid() && q.Valid();
    OneAttribute(p, a);
    NoAttribute(q);
    hide *;
    TwoParameters(p, q);
    ParsingInvertsPrinting([p, q]);
    OfferText(name, attribute, value, other, Ascii(" "));
    assert q.Print() == Ascii(" ") + other;
  }

  lemma OneAttribute(p: Parameter, a: Attribute)
    requires p.attributes == [a] && p.before == [] && p.after == []
    requires a.after == a.gap == a.tail == [] && a.value.Bare?
    ensures p.Print() == p.name + [SEMICOLON] + a.before + a.name + [EQUALS] + a.value.token
    ensures p.Meaning() == (p.name, map[a.name := a.value.token])
  {
    assert p.attributes[1..] == [];
    assert PrintAttributes(p.attributes) == [SEMICOLON] + a.Print() + PrintAttributes([]);
    assert MapOf(p.attributes, map[]) == MapOf([], map[a.name := a.Text()]);
  }

  lemma NoAttribute(p: Parameter)
    requires p.attributes == []
    requires p.after == []
    ensures p.Print() == p.before + p.name && p.Meaning() == (p.name, map[])
  {
  }

  lemma TwoParameters(p: Parameter, q: Parameter)
    ensures PrintParameters([p, q]) == p.Print() + [COMMA] + q.Print()
    ensures Meanings([p, q]) == [p.Meaning(), q.Meaning()]
  {
    hide Parameter.Print, Parameter.Meaning;
    assert [p, q][1..] == [q] && [q][1..] == [];
    assert Meanings([q]) == [q.Meaning()];
  }
}
