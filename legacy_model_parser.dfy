/** The recursive-descent parser of legacy model definitions. It turns
      "progs/a.mdl" 1 2 spawnflags = 4, "progs/b.mdl", pathKey = "model" skinKey = "skin"
    into an expression tree: a Switch over the specs in reverse order; a static spec
    (string-led) is a literal map of path, skin and frame, guarded by a Case when a
    `key = value` condition follows; a dynamic spec (word-led) is a map of variables.

    The reference behaviour is a family of pure functions over the input text and a
    cursor (ParseModelDefinitionAt and the functions it calls), built on the
    tokenizer's NextTokenAt; the class Parser holds a Tokenizer and consumes it
    through PeekToken/NextToken as LegacyModelDefinitionParser does, and each of its methods
    is proved to agree with the corresponding function. */
module LegacyModelParser {
  import opened Wrappers
  import opened El
  import opened LegacyModelTokenizer

  /** The keys of a model specification map. */
  const PathKey := "path"
  const SkinKey := "skin"
  const FrameKey := "frame"

  datatype ParseError =
    | TokenizerFailed(error: TokenError)
    | UnexpectedToken(token: Token, expectedKinds: set<TokenKind>)
    | UnexpectedName(expectedName: string, foundName: string)
    | UnknownDynamicKey(word: string)

  // ----- Case-insensitive comparison and integer values -----

  function ToLower(c: char): (r: char)
    ensures 'A' <= c <= 'Z' ==> r as int == c as int + 32
    ensures !('A' <= c <= 'Z') ==> r == c
  {
    if 'A' <= c <= 'Z' then (c as int + 32) as char else c
  }

  /** ASCII case-insensitive string equality. */
  predicate EqualsIgnoreCase(a: string, b: string) {
    |a| == |b| && forall k :: 0 <= k < |a| ==> ToLower(a[k]) == ToLower(b[k])
  }

  function DigitValue(c: char): (r: nat)
    ensures IsDigit(c) ==> r == c as int - '0' as int
  {
    if IsDigit(c) then c as int - '0' as int else 0
  }

  /** The value of a run of decimal digits, most significant first. */
  function DigitsValue(t: string): (r: nat)
    ensures t == [] ==> r == 0
  {
    if t == [] then 0 else DigitsValue(t[..|t| - 1]) * 10 + DigitValue(t[|t| - 1])
  }

  /** The value of an integer token: an optional sign, then digits. */
  function IntegerValue(t: string): int {
    if |t| > 0 && t[0] == '-' then -(DigitsValue(t[1..]) as int)
    else if |t| > 0 && t[0] == '+' then DigitsValue(t[1..])
    else DigitsValue(t)
  }

  // ----- Reading tokens -----

  /** The next token, without consuming it. */
  function Peek(s: string, p: nat): (r: Result<Token, ParseError>)
    requires p <= |s|
    ensures r.Ok? <==> NextTokenAt(s, p).Ok?
    ensures r.Ok? ==> r.value == NextTokenAt(s, p).value.0
  {
    match NextTokenAt(s, p)
    case Ok(n) => Ok(n.0)
    case Err(e) => Err(TokenizerFailed(e))
  }

  /** The position after the next token. */
  function After(s: string, p: nat): (q: nat)
    requires p <= |s| && NextTokenAt(s, p).Ok?
    ensures p <= q <= |s|
    ensures NextTokenAt(s, p).value.0.kind != Eof ==> p < q
  {
    NextTokenAt(s, p).value.1
  }

  /** The token if it is of one of the expected kinds, an error naming them otherwise. */
  function Expect(kinds: set<TokenKind>, r: Result<Token, ParseError>): (e: Result<Token, ParseError>)
    ensures e.Ok? <==> r.Ok? && r.value.kind in kinds
    ensures e.Ok? ==> e.value == r.value
  {
    var t :- r;
    if t.kind in kinds then Ok(t) else Err(UnexpectedToken(t, kinds))
  }

  // ----- The grammar, as functions over the text and a cursor -----

  /** `name = "value"`, with the name matched case-insensitively; yields the variable
      named by the quoted value. */
  function ParseNamedValueAt(s: string, p: nat, name: string): (r: Result<(Expression, nat), ParseError>)
    requires p <= |s|
    ensures r.Ok? ==> p < r.value.1 <= |s| && r.value.0.Variable?
    ensures r.Ok? ==>
              Peek(s, p).Ok? && Peek(s, p).value.kind == Word
              && EqualsIgnoreCase(name, Peek(s, p).value.data)
  {
    var key :- Expect({Word}, Peek(s, p));
    if !EqualsIgnoreCase(name, key.data) then Err(UnexpectedName(name, key.data))
    else
      var p1 := After(s, p);
      var _ :- Expect({Equality}, Peek(s, p1));
      var p2 := After(s, p1);
      var value :- Expect({String}, Peek(s, p2));
      Ok((Variable(value.data), After(s, p2)))
  }

  /** A word that is not the expected name, in any case, is rejected by name; any
      other token is rejected as unexpected. */
  lemma NamedValueRejects(s: string, p: nat, name: string, t: Token)
    requires p <= |s| && Peek(s, p) == Ok(t)
    ensures t.kind != Word ==> ParseNamedValueAt(s, p, name) == Err(UnexpectedToken(t, {Word}))
    ensures t.kind == Word && !EqualsIgnoreCase(name, t.data) ==>
      ParseNamedValueAt(s, p, name) == Err(UnexpectedName(name, t.data))
  {
  }

  /** The literal map of a static spec: the path, then skin and frame from the first
      and second index when present. */
  function StaticMap(path: string, indices: seq<int>): (m: map<string, Value>)
    requires |indices| <= 2
    ensures PathKey in m && m[PathKey] == StringValue(path)
    ensures SkinKey in m <==> |indices| >= 1
    ensures FrameKey in m <==> |indices| == 2
    ensures |indices| >= 1 ==> m[SkinKey] == NumberValue(indices[0])
    ensures |indices| == 2 ==> m[FrameKey] == NumberValue(indices[1])
    ensures m.Keys <= {PathKey, SkinKey, FrameKey}
  {
    var m := map[PathKey := StringValue(path)];
    var m := if |indices| >= 1 then m[SkinKey := NumberValue(indices[0])] else m;
    if |indices| == 2 then m[FrameKey := NumberValue(indices[1])] else m
  }

  /** The up to two integers after a static spec's path, the token that follows
      them (a word, a comma or a closing parenthesis, not consumed) and its position. */
  datatype Indices = Indices(values: seq<int>, following: Token, position: nat)

  function StaticIndicesAt(s: string, p: nat): (r: Result<Indices, ParseError>)
    requires p <= |s|
    ensures r.Ok? ==> |r.value.values| <= 2 && p <= r.value.position <= |s|
    ensures r.Ok? ==> Peek(s, r.value.position) == Ok(r.value.following)
  {
    var t1 :- Expect({Integer, Word, Comma, CParenthesis}, Peek(s, p));
    if t1.kind != Integer then Ok(Indices([], t1, p))
    else
      var p1 := After(s, p);
      var t2 :- Expect({Integer, Word, Comma, CParenthesis}, Peek(s, p1));
      if t2.kind != Integer then Ok(Indices([IntegerValue(t1.data)], t2, p1))
      else
        var p2 := After(s, p1);
        var t3 :- Expect({Word, Comma, CParenthesis}, Peek(s, p2));
        Ok(Indices([IntegerValue(t1.data), IntegerValue(t2.data)], t3, p2))
  }

  /** A static spec: `"path" [skin [frame]] [key = value]`. */
  function ParseStaticAt(s: string, p: nat): (r: Result<(Expression, nat), ParseError>)
    requires p <= |s|
    ensures r.Ok? ==> p < r.value.1 <= |s|
  {
    var path :- Expect({String}, Peek(s, p));
    var p1 := After(s, p);
    var indices :- StaticIndicesAt(s, p1);
    var model := Literal(MapValue(StaticMap(path.data, indices.values)));
    if indices.following.kind != Word then Ok((model, indices.position))
    else
      var key := indices.following.data;
      var p2 := After(s, indices.position);
      var _ :- Expect({Equality}, Peek(s, p2));
      var p3 := After(s, p2);
      var value :- Expect({String, Integer}, Peek(s, p3));
      var literal := if value.kind == String then StringValue(value.data)
        else NumberValue(IntegerValue(value.data));
      Ok((Binary(Case, Binary(Equal, Variable(key), Literal(literal)), model), After(s, p3)))
  }

  /** The map key a dynamic entry's word selects (case-insensitively), with the name
      the entry must then carry. */
  function DynamicKey(word: string): (r: Option<(string, string)>)
    ensures r.Some? <==> EqualsIgnoreCase("skinKey", word) || EqualsIgnoreCase("frameKey", word)
    ensures EqualsIgnoreCase("skinKey", word) ==> r == Some((SkinKey, "skinKey"))
    ensures EqualsIgnoreCase("frameKey", word) ==> r == Some((FrameKey, "frameKey"))
  {
    if EqualsIgnoreCase("skinKey", word) then Some((SkinKey, "skinKey"))
    else if EqualsIgnoreCase("frameKey", word) then Some((FrameKey, "frameKey"))
    else None
  }

  /** The `skinKey = "..."` and `frameKey = "..."` entries of a dynamic spec, from a
      position where a word is next, until a closing parenthesis is next. A key that
      is already present keeps its first value. */
  function DynamicEntriesAt(s: string, p: nat, entries: map<string, Expression>)
    : (r: Result<(map<string, Expression>, nat), ParseError>)
    requires p <= |s|
    ensures r.Ok? ==> p < r.value.1 <= |s| && entries.Keys <= r.value.0.Keys
    ensures r.Ok? ==> forall k :: k in entries ==> r.value.0[k] == entries[k]
    ensures r.Ok? ==> Peek(s, p).Ok? && DynamicKey(Peek(s, p).value.data).Some?
    decreases |s| - p
  {
    var word :- Peek(s, p);
    match DynamicKey(word.data)
    case None => Err(UnknownDynamicKey(word.data))
    case Some((key, name)) =>
      var value :- ParseNamedValueAt(s, p, name);
      var entries' := if key in entries then entries else entries[key := value.0];
      var next :- Expect({Word, CParenthesis}, Peek(s, value.1));
      if next.kind == Word then DynamicEntriesAt(s, value.1, entries')
      else Ok((entries', value.1))
  }

  /** A dynamic entry led by any word other than skinKey or frameKey (in any case)
      is rejected with that word. */
  lemma DynamicEntriesRejectUnknown(s: string, p: nat, entries: map<string, Expression>, t: Token)
    requires p <= |s| && Peek(s, p) == Ok(t)
    requires !EqualsIgnoreCase("skinKey", t.data) && !EqualsIgnoreCase("frameKey", t.data)
    ensures DynamicEntriesAt(s, p, entries) == Err(UnknownDynamicKey(t.data))
  {
  }

  /** A dynamic spec: `pathKey = "..."` followed by skin and frame entries; it must be
      followed by the closing parenthesis. */
  function ParseDynamicAt(s: string, p: nat): (r: Result<(Expression, nat), ParseError>)
    requires p <= |s|
    ensures r.Ok? ==> p < r.value.1 <= |s| && r.value.0.MapExpression?
    ensures r.Ok? ==> PathKey in r.value.0.entries
  {
    var path :- ParseNamedValueAt(s, p, "pathKey");
    var entries := map[PathKey := path.0];
    var next :- Expect({Word, CParenthesis}, Peek(s, path.1));
    if next.kind == CParenthesis then Ok((MapExpression(entries), path.1))
    else
      var more :- DynamicEntriesAt(s, path.1, entries);
      Ok((MapExpression(more.0), more.1))
  }

  /** The comma-separated specs from `p`, appended to `done`, up to (not including)
      the closing parenthesis. */
  function ModelSpecsAt(s: string, p: nat, done: seq<Expression>)
    : (r: Result<(seq<Expression>, nat), ParseError>)
    requires p <= |s|
    ensures r.Ok? ==> p < r.value.1 <= |s| && |r.value.0| > |done| && r.value.0[..|done|] == done
    decreases |s| - p
  {
    var t :- Expect({String, Word}, Peek(s, p));
    var spec :- if t.kind == String then ParseStaticAt(s, p) else ParseDynamicAt(s, p);
    var done' := done + [spec.0];
    var next :- Expect({Comma, CParenthesis}, Peek(s, spec.1));
    if next.kind == Comma then
      var r := ModelSpecsAt(s, After(s, spec.1), done');
      assert done'[..|done|] == done;
      assert r.Ok? ==> r.value.0[..|done|] == done'[..|done|];
      r
    else Ok((done', spec.1))
  }

  function Reverse<T>(xs: seq<T>): (r: seq<T>)
    ensures |r| == |xs|
    ensures forall i :: 0 <= i < |xs| ==> r[i] == xs[|xs| - 1 - i]
  {
    if xs == [] then [] else Reverse(xs[1..]) + [xs[0]]
  }

  /** A whole legacy model definition: a closing parenthesis right away gives the
      undefined literal and consumes nothing; otherwise the specs, evaluated back to
      front, as a Switch in reverse order. The closing parenthesis is left unread. */
  function ParseModelDefinitionAt(s: string, p: nat): (r: Result<(Expression, nat), ParseError>)
    requires p <= |s|
    ensures r.Ok? ==> p <= r.value.1 <= |s|
  {
    var t :- Expect({String, Word, CParenthesis}, Peek(s, p));
    if t.kind == CParenthesis then Ok((Literal(Undefined), p))
    else
      var specs :- ModelSpecsAt(s, p, []);
      Ok((Switch(Reverse(specs.0)), specs.1))
  }

  // ----- The parser object -----

  /** A method's outcome agrees with a function's: the same value and the cursor
      where the function says, or the same error. */
  ghost predicate Agrees<T>(r: Result<T, ParseError>, spec: Result<(T, nat), ParseError>, position: nat) {
    match spec
    case Ok(v) => r == Ok(v.0) && position == v.1
    case Err(e) => r == Err(e)
  }

  /** A tokenizing outcome in parser terms. */
  function Lift(r: Result<Token, TokenError>): (e: Result<Token, ParseError>)
    ensures e.Ok? <==> r.Ok?
    ensures e.Ok? ==> e.value == r.value
  {
    match r
    case Ok(t) => Ok(t)
    case Err(err) => Err(TokenizerFailed(err))
  }

  class Parser {
    const tokenizer: Tokenizer

    ghost predicate Valid()
      reads this, tokenizer
    {
      tokenizer.Valid()
    }

    constructor (input: string)
      ensures Valid() && fresh(tokenizer)
      ensures tokenizer.input == input && tokenizer.position == 0
    {
      tokenizer := new Tokenizer(input);
    }

    method Parse() returns (r: Result<Expression, ParseError>)
      requires Valid()
      modifies tokenizer
      ensures Valid()
      ensures Agrees(r, ParseModelDefinitionAt(tokenizer.input, old(tokenizer.position)), tokenizer.position)
    {
      r := ParseModelDefinition();
    }

    method ParseModelDefinition() returns (r: Result<Expression, ParseError>)
      requires Valid()
      modifies tokenizer
      ensures Valid()
      ensures Agrees(r, ParseModelDefinitionAt(tokenizer.input, old(tokenizer.position)), tokenizer.position)
    {
      var peeked := tokenizer.PeekToken();
      var token :- Expect({String, Word, CParenthesis}, Lift(peeked));
      if token.kind == CParenthesis {
        return Ok(Literal(Undefined));
      }
      var modelExpressions :- ParseModelSpecs();
      return Ok(Switch(Reverse(modelExpressions)));
    }

    /** The loop of the definition over its comma-separated specs, up to the closing
        parenthesis. */
    method ParseModelSpecs() returns (r: Result<seq<Expression>, ParseError>)
      requires Valid()
      modifies tokenizer
      ensures Valid()
      ensures Agrees(r, ModelSpecsAt(tokenizer.input, old(tokenizer.position), []), tokenizer.position)
    {
      var modelExpressions: seq<Expression> := [];
      ghost var start := tokenizer.position;
      while true
        invariant tokenizer.Valid()
        invariant ModelSpecsAt(tokenizer.input, start, []) == ModelSpecsAt(tokenizer.input, tokenizer.position, modelExpressions)
        decreases |tokenizer.input| - tokenizer.position
      {
        var peeked := tokenizer.PeekToken();
        var token :- Expect({String, Word}, Lift(peeked));
        var spec;
        if token.kind == String {
          spec :- ParseStaticModelDefinition();
        } else {
          spec :- ParseDynamicModelDefinition();
        }
        modelExpressions := modelExpressions + [spec];
        peeked := tokenizer.PeekToken();
        token :- Expect({Comma, CParenthesis}, Lift(peeked));
        if token.kind == Comma {
          var _ := tokenizer.NextToken();
        } else {
          break;
        }
      }
      return Ok(modelExpressions);
    }

    method ParseStaticModelDefinition() returns (r: Result<Expression, ParseError>)
      requires Valid()
      modifies tokenizer
      ensures Valid()
      ensures Agrees(r, ParseStaticAt(tokenizer.input, old(tokenizer.position)), tokenizer.position)
    {
      var next := tokenizer.NextToken();
      var token :- Expect({String}, Lift(next));
      var path := token.data;
      var indices :- ParseStaticIndices();
      token := indices.following;
      var model := Literal(MapValue(StaticMap(path, indices.values)));
      if token.kind == Word {
        next := tokenizer.NextToken();
        var key := next.value.data;
        next := tokenizer.NextToken();
        token :- Expect({Equality}, Lift(next));
        next := tokenizer.NextToken();
        token :- Expect({String, Integer}, Lift(next));
        var literal := if token.kind == String then StringValue(token.data)
          else NumberValue(IntegerValue(token.data));
        return Ok(Binary(Case, Binary(Equal, Variable(key), Literal(literal)), model));
      }
      return Ok(model);
    }

    /** The up to two indices after a static spec's path; the token after them is
        peeked, not consumed. */
    method ParseStaticIndices() returns (r: Result<Indices, ParseError>)
      requires Valid()
      modifies tokenizer
      ensures Valid()
      ensures r == StaticIndicesAt(tokenizer.input, old(tokenizer.position))
      ensures r.Ok? ==> tokenizer.position == r.value.position
    {
      var values: seq<int> := [];
      var peeked := tokenizer.PeekToken();
      var token :- Expect({Integer, Word, Comma, CParenthesis}, Lift(peeked));
      if token.kind == Integer {
        var next := tokenizer.NextToken();
        values := [IntegerValue(next.value.data)];
        peeked := tokenizer.PeekToken();
        token :- Expect({Integer, Word, Comma, CParenthesis}, Lift(peeked));
        if token.kind == Integer {
          next := tokenizer.NextToken();
          values := [values[0], IntegerValue(next.value.data)];
          peeked := tokenizer.PeekToken();
          token :- Expect({Word, Comma, CParenthesis}, Lift(peeked));
        }
      }
      return Ok(Indices(values, token, tokenizer.position));
    }

    method ParseDynamicModelDefinition() returns (r: Result<Expression, ParseError>)
      requires Valid()
      modifies tokenizer
      ensures Valid()
      ensures Agrees(r, ParseDynamicAt(tokenizer.input, old(tokenizer.position)), tokenizer.position)
    {
      var path :- ParseNamedValue("pathKey");
      var entries := map[PathKey := path];
      var peeked := tokenizer.PeekToken();
      var token :- Expect({Word, CParenthesis}, Lift(peeked));
      if token.kind != CParenthesis {
        entries :- ParseDynamicEntries(token, entries);
      }
      return Ok(MapExpression(entries));
    }

    /** The loop of the dynamic spec over its skin and frame entries, with the word
        `first` next. */
    method ParseDynamicEntries(first: Token, start: map<string, Expression>)
      returns (r: Result<map<string, Expression>, ParseError>)
      requires Valid() && first.kind == Word && Peek(tokenizer.input, tokenizer.position) == Ok(first)
      modifies tokenizer
      ensures Valid()
      ensures Agrees(r, DynamicEntriesAt(tokenizer.input, old(tokenizer.position), start), tokenizer.position)
    {
      var entries := start;
      var token := first;
      ghost var begin := tokenizer.position;
      while true
        invariant tokenizer.Valid()
        invariant Peek(tokenizer.input, tokenizer.position) == Ok(token)
        invariant DynamicEntriesAt(tokenizer.input, begin, start)
          == DynamicEntriesAt(tokenizer.input, tokenizer.position, entries)
        decreases |tokenizer.input| - tokenizer.position
      {
        var value;
        if EqualsIgnoreCase("skinKey", token.data) {
          value :- ParseNamedValue("skinKey");
          if SkinKey !in entries {
            entries := entries[SkinKey := value];
          }
        } else if EqualsIgnoreCase("frameKey", token.data) {
          value :- ParseNamedValue("frameKey");
          if FrameKey !in entries {
            entries := entries[FrameKey := value];
          }
        } else {
          return Err(UnknownDynamicKey(token.data));
        }
        var peeked := tokenizer.PeekToken();
        token :- Expect({Word, CParenthesis}, Lift(peeked));
        if token.kind != Word {
          break;
        }
      }
      return Ok(entries);
    }

    method ParseNamedValue(name: string) returns (r: Result<Expression, ParseError>)
      requires Valid()
      modifies tokenizer
      ensures Valid()
      ensures Agrees(r, ParseNamedValueAt(tokenizer.input, old(tokenizer.position), name), tokenizer.position)
    {
      var next := tokenizer.NextToken();
      var token :- Expect({Word}, Lift(next));
      if !EqualsIgnoreCase(name, token.data) {
        return Err(UnexpectedName(name, token.data));
      }
      next := tokenizer.NextToken();
      token :- Expect({Equality}, Lift(next));
      next := tokenizer.NextToken();
      token :- Expect({String}, Lift(next));
      return Ok(Variable(token.data));
    }
  }
}
