/** Legacy model definitions as values, their text, and what the parser makes of it.

    A ModelSpec is one comma-separated entry of a legacy model definition; Format
    renders a list of them as the text between `model(` and `)`, and Meaning is the
    expression each entry stands for. The central theorem, ParseFormatted, says
    that the parser reads formatted text back as the Switch of the entries'
    meanings in reverse order. */
module LegacyModelFormat {
  import opened Wrappers
  import opened El
  import opened LegacyModelTokenizer
  import opened LegacyModelParser

  // ----- Integers as text -----

  function DigitChar(d: nat): (c: char)
    requires d < 10
    ensures IsDigit(c) && DigitValue(c) == d
  {
    ('0' as int + d) as char
  }

  /** The decimal digits of a natural number, most significant first. */
  function NatText(n: nat): (t: string)
    ensures |t| > 0 && AllDigits(t)
    decreases n
  {
    if n < 10 then [DigitChar(n)] else NatText(n / 10) + [DigitChar(n % 10)]
  }

  /** An integer as the tokenizer reads it: a minus sign for negative numbers. */
  function IntegerText(n: int): string {
    if n < 0 then "-" + NatText(-n) else NatText(n)
  }

  lemma {:induction false} NatTextValue(n: nat)
    ensures DigitsValue(NatText(n)) == n
    decreases n
  {
    if n >= 10 {
      var t := NatText(n);
      assert t[..|t| - 1] == NatText(n / 10);
      NatTextValue(n / 10);
    }
  }

  /** Rendering an integer and reading it back gives the integer. */
  lemma {:induction false} IntegerTextValue(n: int)
    ensures IsIntegerText(IntegerText(n))
    ensures IntegerValue(IntegerText(n)) == n
  {
    if n < 0 {
      var t := IntegerText(n);
      assert t[1..] == NatText(-n);
      NatTextValue(-n);
    } else {
      NatTextValue(n);
    }
  }

  // ----- Token lists as text, and reading them back -----

  /** Tokens as text, each preceded by one space. */
  function Render(ts: seq<Token>): (r: string)
    ensures ts != [] ==> |r| > 0 && r[0] == ' '
  {
    if ts == [] then "" else " " + TokenText(ts[0]) + Render(ts[1..])
  }

  lemma {:induction false} RenderAppend(a: seq<Token>, b: seq<Token>)
    ensures Render(a + b) == Render(a) + Render(b)
    decreases |a|
  {
    if a != [] {
      assert (a + b)[0] == a[0];
      assert (a + b)[1..] == a[1..] + b;
      RenderAppend(a[1..], b);
      AppendAssoc(" " + TokenText(a[0]), Render(a[1..]), Render(b));
    } else {
      assert a + b == b;
      assert Render(a) == [];
      assert [] + Render(b) == Render(b);
    }
  }

  /** The next `n` tokens from `p`, and where they end. */
  function ReadTokens(s: string, p: nat, n: nat): (r: Result<(seq<Token>, nat), TokenError>)
    requires p <= |s|
    ensures r.Ok? ==> |r.value.0| == n && p <= r.value.1 <= |s|
    decreases n
  {
    if n == 0 then Ok(([], p))
    else
      var first :- NextTokenAt(s, p);
      var rest :- ReadTokens(s, first.1, n - 1);
      Ok(([first.0] + rest.0, rest.1))
  }

  /** Reading tokens from `p` yields exactly `ts` and stops at `q`. */
  function Reads(s: string, p: nat, ts: seq<Token>, q: nat): bool
    requires p <= |s|
  {
    ReadTokens(s, p, |ts|) == Ok((ts, q))
  }

  /** Where reading `n` tokens from `p` stops, when it succeeds. */
  function ReadEnd(s: string, p: nat, n: nat): (q: nat)
    requires p <= |s|
    ensures p <= q <= |s|
  {
    match ReadTokens(s, p, n)
    case Ok(r) => r.1
    case Err(_) => p
  }

  /** Reading a concatenation is reading its parts one after the other. */
  lemma {:induction false} ReadsSplit(s: string, p: nat, a: seq<Token>, b: seq<Token>, q: nat)
    requires p <= |s| && Reads(s, p, a + b, q)
    ensures Reads(s, p, a, ReadEnd(s, p, |a|)) && Reads(s, ReadEnd(s, p, |a|), b, q)
    decreases |a|
  {
    if a == [] {
      assert a + b == b;
    } else {
      var first := NextTokenAt(s, p).value;
      assert (a + b)[1..] == a[1..] + b;
      assert [(a + b)[0]] + (a[1..] + b) == a + b;
      var rest := ReadTokens(s, first.1, |a + b| - 1);
      assert rest == Ok((a[1..] + b, q));
      ReadsSplit(s, first.1, a[1..], b, q);
      assert [a[0]] + a[1..] == a;
    }
  }

  predicate Readable(ts: seq<Token>) {
    forall i :: 0 <= i < |ts| ==> WellFormed(ts[i]) && ts[i].kind != Eof
  }

  /** One more token in front of a read (whose end may be stated as an equal
      position). */
  lemma ReadsCons(s: string, p: nat, ts: seq<Token>, m: nat, q: nat)
    requires p <= |s| && ts != []
    requires NextTokenAt(s, p) == Ok((ts[0], m)) && m <= |s| && Reads(s, m, ts[1..], q)
    ensures Reads(s, p, ts, q)
  {
    assert [ts[0]] + ts[1..] == ts;
  }

  lemma ReadableTail(ts: seq<Token>)
    requires Readable(ts) && ts != []
    ensures WellFormed(ts[0]) && ts[0].kind != Eof && Readable(ts[1..])
  {
    forall i | 0 <= i < |ts[1..]| ensures WellFormed(ts[1..][i]) && ts[1..][i].kind != Eof {
      assert ts[1..][i] == ts[i + 1];
    }
  }

  /** The text of `ts` stands in `s` at `p`, followed by the end of input or a
      delimiter. */
  predicate RenderedAt(s: string, p: nat, ts: seq<Token>) {
    p + |Render(ts)| <= |s| && s[p..p + |Render(ts)|] == Render(ts)
    && (p + |Render(ts)| == |s| || IsWordDelim(s[p + |Render(ts)|]))
  }

  lemma SliceOfSlice<T>(s: seq<T>, p: nat, f: nat, i: nat, j: nat)
    requires p <= f <= |s| && i <= j <= f - p
    ensures s[p..f][i..j] == s[p + i..p + j]
  {
    forall k | 0 <= k < j - i ensures s[p..f][i..j][k] == s[p + i..p + j][k] {
      assert s[p..f][i..j][k] == s[p..f][i + k] == s[p + i + k];
    }
  }

  /** A space, a text and a rest standing in `s` at `p`, taken apart. */
  lemma SplitAt(s: string, p: nat, text: string, rest: string, e: nat, f: nat)
    requires e == p + 1 + |text| && f == e + |rest| <= |s|
    requires s[p..f] == " " + text + rest
    ensures s[p] == ' ' && s[p + 1..e] == text && s[e..f] == rest
  {
    var r := s[p..f];
    assert s[p] == r[0];
    assert r[1..1 + |text|] == text;
    assert r[1 + |text|..1 + |text| + |rest|] == rest;
    SliceOfSlice(s, p, f, 1, 1 + |text|);
    SliceOfSlice(s, p, f, 1 + |text|, 1 + |text| + |rest|);
  }

  /** A space, a text and a rest that is empty or starts with a space, standing
      in `s` at `p` before a delimiter or the end: the text is followed by a
      delimiter or the end as well. */
  lemma ConsText(s: string, p: nat, text: string, rest: string, whole: string, e: nat, f: nat)
    requires whole == " " + text + rest && e == p + 1 + |text| && f == p + |whole| <= |s|
    requires s[p..f] == whole && (f == |s| || IsWordDelim(s[f]))
    requires rest != [] ==> rest[0] == ' '
    ensures s[p] == ' ' && s[p + 1..e] == text
    ensures e == |s| || IsWordDelim(s[e])
    ensures e + |rest| <= |s| && s[e..e + |rest|] == rest
    ensures e + |rest| == |s| || IsWordDelim(s[e + |rest|])
  {
    SplitAt(s, p, text, rest, e, f);
    if rest != [] {
      assert s[e] == s[e..f][0];
    }
  }

  lemma RenderCons(ts: seq<Token>)
    requires ts != []
    ensures Render(ts) == " " + TokenText(ts[0]) + Render(ts[1..])
    ensures Render(ts[1..]) != [] ==> Render(ts[1..])[0] == ' '
  {
  }

  lemma RenderLength(ts: seq<Token>)
    requires ts != []
    ensures |Render(ts)| == 1 + |TokenText(ts[0])| + |Render(ts[1..])|
  {
  }

  lemma RenderedAtFirst(s: string, p: nat, ts: seq<Token>, e: nat)
    requires ts != [] && RenderedAt(s, p, ts)
    requires e == p + 1 + |TokenText(ts[0])|
    ensures e <= |s| && s[p] == ' ' && s[p + 1..e] == TokenText(ts[0])
    ensures e == |s| || IsWordDelim(s[e])
  {
    RenderCons(ts);
    ConsText(s, p, TokenText(ts[0]), Render(ts[1..]), Render(ts), e, p + |Render(ts)|);
  }

  lemma RenderedAtRest(s: string, p: nat, ts: seq<Token>, e: nat)
    requires ts != [] && RenderedAt(s, p, ts)
    requires e == p + 1 + |TokenText(ts[0])|
    ensures RenderedAt(s, e, ts[1..])
  {
    RenderCons(ts);
    RestText(s, p, TokenText(ts[0]), Render(ts[1..]), Render(ts), e, p + |Render(ts)|);
  }

  /** The rest after a space and a text, standing in `s` before a delimiter or the end. */
  lemma RestText(s: string, p: nat, text: string, rest: string, whole: string, e: nat, f: nat)
    requires whole == " " + text + rest && e == p + 1 + |text| && f == p + |whole| <= |s|
    requires s[p..f] == whole && (f == |s| || IsWordDelim(s[f]))
    ensures e + |rest| == f && s[e..f] == rest && (f == |s| || IsWordDelim(s[f]))
  {
    SplitAt(s, p, text, rest, e, f);
  }

  /** The text of the first token and of the rest, as they stand in `s`. */
  lemma RenderedAtCons(s: string, p: nat, ts: seq<Token>, e: nat)
    requires ts != [] && RenderedAt(s, p, ts)
    requires e == p + 1 + |TokenText(ts[0])|
    ensures e <= |s| && s[p] == ' ' && s[p + 1..e] == TokenText(ts[0])
    ensures RenderedAt(s, e, ts[1..])
    ensures e == |s| || IsWordDelim(s[e])
    ensures p + |Render(ts)| == e + |Render(ts[1..])|
  {
    RenderedAtFirst(s, p, ts, e);
    RenderedAtRest(s, p, ts, e);
    RenderLength(ts);
  }

  /** A token standing in `s` at `p` reads back in front of what follows it. */
  lemma ReadsFront(s: string, p: nat, ts: seq<Token>, e: nat, q: nat)
    requires ts != [] && WellFormed(ts[0]) && ts[0].kind != Eof
    requires e == p + 1 + |TokenText(ts[0])| && e <= |s|
    requires s[p] == ' ' && s[p + 1..e] == TokenText(ts[0])
    requires e == |s| || IsWordDelim(s[e])
    requires Reads(s, e, ts[1..], q)
    ensures Reads(s, p, ts, q)
  {
    ReadBack(s, p, ts[0], e);
    ReadsCons(s, p, ts, e, q);
  }

  /** Rendered well-formed tokens read back as themselves wherever they stand,
      when what follows starts with a delimiter. */
  lemma {:induction false} RenderReads(s: string, p: nat, ts: seq<Token>, q: nat)
    requires Readable(ts) && RenderedAt(s, p, ts) && q == p + |Render(ts)|
    ensures Reads(s, p, ts, q)
    decreases |ts|
  {
    if ts != [] {
      var e := p + 1 + |TokenText(ts[0])|;
      RenderedAtCons(s, p, ts, e);
      ReadableTail(ts);
      RenderReads(s, e, ts[1..], q);
      ReadsFront(s, p, ts, e, q);
    }
  }

  /** The first token of a read, and where the rest of the read starts. */
  lemma ReadsFirst(s: string, p: nat, ts: seq<Token>, q: nat)
    requires p <= |s| && ts != [] && Reads(s, p, ts, q)
    ensures NextTokenAt(s, p).Ok? && Peek(s, p) == Ok(ts[0])
    ensures Reads(s, After(s, p), ts[1..], q)
  {
  }

  lemma ReadsNothing(s: string, p: nat, q: nat)
    requires p <= |s| && Reads(s, p, [], q)
    ensures p == q
  {
  }

  // ----- Entries of a legacy model definition -----

  /** The `name = "variable"` tokens of a named value. */
  function NamedTokens(name: string, variable: string): seq<Token> {
    [Token(Word, name), Token(Equality, "="), Token(String, variable)]
  }

  /** A named value reads back as its variable, whatever the case of the name. */
  lemma NamedValueReads(s: string, p: nat, name: string, written: string, variable: string, q: nat)
    requires p <= |s| && EqualsIgnoreCase(name, written)
    requires Reads(s, p, NamedTokens(written, variable), q)
    ensures ParseNamedValueAt(s, p, name) == Ok((Variable(variable), q))
  {
    var ts := NamedTokens(written, variable);
    ReadsFirst(s, p, ts, q);
    var p1 := After(s, p);
    assert ts[1..] == [Token(Equality, "="), Token(String, variable)];
    ReadsFirst(s, p1, ts[1..], q);
    var p2 := After(s, p1);
    assert ts[1..][1..] == [Token(String, variable)];
    ReadsFirst(s, p2, ts[1..][1..], q);
    ReadsNothing(s, After(s, p2), q);
  }

  /** The value a static spec's condition compares the key variable with. */
  datatype ConditionValue = QuotedValue(text: string) | IntegerLiteral(number: int)

  /** `key = value` after a static spec's indices. */
  datatype Condition = Condition(key: string, value: ConditionValue)

  /** `skinKey = "variable"` or `frameKey = "variable"` in a dynamic spec. */
  datatype DynamicEntry = SkinEntry(variable: string) | FrameEntry(variable: string)

  /** One comma-separated entry of a legacy model definition. */
  datatype ModelSpec =
    | StaticSpec(path: string, indices: seq<int>, condition: Option<Condition>)
    | DynamicSpec(pathVariable: string, entries: seq<DynamicEntry>)

  predicate Unquoted(text: string) {
    forall k :: 0 <= k < |text| ==> text[k] != '"'
  }

  /** A static spec has at most a skin and a frame index. */
  predicate Meaningful(spec: ModelSpec) {
    spec.StaticSpec? ==> |spec.indices| <= 2
  }

  /** A spec that can be written down: quoted texts hold no quote, a condition key
      is a word, and a static spec has at most a skin and a frame index. */
  predicate ValidSpec(spec: ModelSpec) {
    Meaningful(spec) &&
    match spec
    case StaticSpec(path, indices, condition) =>
      Unquoted(path)
      && (condition.Some? ==>
            WellFormed(Token(Word, condition.value.key))
            && (condition.value.value.QuotedValue? ==> Unquoted(condition.value.value.text)))
    case DynamicSpec(pathVariable, entries) =>
      Unquoted(pathVariable) && forall i :: 0 <= i < |entries| ==> Unquoted(entries[i].variable)
  }

  /** A dynamic spec runs to the closing parenthesis, so only the last spec of a
      definition may be dynamic. */
  predicate ValidList(specs: seq<ModelSpec>) {
    WellWritten(specs) && forall i :: 0 <= i < |specs| - 1 ==> specs[i].StaticSpec?
  }

  /** A non-empty list of specs that can each be written down. */
  predicate WellWritten(specs: seq<ModelSpec>) {
    specs != [] && forall i :: 0 <= i < |specs| ==> ValidSpec(specs[i])
  }

  // ----- Specs as tokens -----

  function IntegerToken(n: int): Token {
    Token(Integer, IntegerText(n))
  }

  function IndexTokens(indices: seq<int>): (r: seq<Token>)
    ensures |r| == |indices|
    ensures forall i :: 0 <= i < |indices| ==> r[i] == IntegerToken(indices[i])
  {
    if indices == [] then [] else [IntegerToken(indices[0])] + IndexTokens(indices[1..])
  }

  function ValueToken(v: ConditionValue): Token {
    match v
    case QuotedValue(text) => Token(String, text)
    case IntegerLiteral(n) => IntegerToken(n)
  }

  function ConditionTokens(condition: Option<Condition>): seq<Token> {
    match condition
    case None => []
    case Some(Condition(key, value)) => [Token(Word, key), Token(Equality, "="), ValueToken(value)]
  }

  function EntryName(e: DynamicEntry): string {
    match e
    case SkinEntry(_) => "skinKey"
    case FrameEntry(_) => "frameKey"
  }

  function EntryTokens(entries: seq<DynamicEntry>): seq<Token> {
    if entries == [] then []
    else NamedTokens(EntryName(entries[0]), entries[0].variable) + EntryTokens(entries[1..])
  }

  function SpecTokens(spec: ModelSpec): seq<Token> {
    match spec
    case StaticSpec(path, indices, condition) =>
      [Token(String, path)] + (IndexTokens(indices) + ConditionTokens(condition))
    case DynamicSpec(pathVariable, entries) =>
      NamedTokens("pathKey", pathVariable) + EntryTokens(entries)
  }

  /** The specs, separated by commas. */
  function ListTokens(specs: seq<ModelSpec>): seq<Token>
    requires specs != []
  {
    if |specs| == 1 then SpecTokens(specs[0])
    else SpecTokens(specs[0]) + ([Token(Comma, ",")] + ListTokens(specs[1..]))
  }

  /** The text of a legacy model definition after `model(`, closing parenthesis
      included. */
  function Format(specs: seq<ModelSpec>): string
    requires specs != []
  {
    Render(ListTokens(specs) + [Token(CParenthesis, ")")])
  }

  // ----- What specs stand for -----

  function ConditionLiteral(v: ConditionValue): Value {
    match v
    case QuotedValue(text) => StringValue(text)
    case IntegerLiteral(n) => NumberValue(n)
  }

  function EntryKey(e: DynamicEntry): string {
    match e
    case SkinEntry(_) => SkinKey
    case FrameEntry(_) => FrameKey
  }

  /** The map after one more dynamic entry: a key already present keeps its value. */
  function AddEntry(acc: map<string, Expression>, e: DynamicEntry): map<string, Expression> {
    if EntryKey(e) in acc then acc else acc[EntryKey(e) := Variable(e.variable)]
  }

  /** The entries added to `acc` in order, a key already present keeping its value. */
  function EntriesMap(entries: seq<DynamicEntry>, acc: map<string, Expression>): map<string, Expression>
    decreases |entries|
  {
    if entries == [] then acc
    else
      EntriesMap(entries[1..], AddEntry(acc, entries[0]))
  }

  /** Entry `i` is the first one for `key`. */
  predicate FirstAt(entries: seq<DynamicEntry>, key: string, i: int) {
    0 <= i < |entries| && EntryKey(entries[i]) == key
    && forall j :: 0 <= j < i ==> EntryKey(entries[j]) != key
  }

  /** The variable of the first entry for `key`, if any. */
  function FirstOf(entries: seq<DynamicEntry>, key: string): (r: Option<string>)
    ensures r.None? <==> forall i :: 0 <= i < |entries| ==> EntryKey(entries[i]) != key
    ensures r.Some? ==> exists i :: FirstAt(entries, key, i) && entries[i].variable == r.value
  {
    if entries == [] then None
    else if EntryKey(entries[0]) == key then
      assert FirstAt(entries, key, 0);
      Some(entries[0].variable)
    else
      var r := FirstOf(entries[1..], key);
      assert r.Some? ==> exists i :: FirstAt(entries, key, i) && entries[i].variable == r.value by {
        if r.Some? {
          var i :| FirstAt(entries[1..], key, i) && entries[1..][i].variable == r.value;
          assert entries[i + 1] == entries[1..][i];
          forall j | 0 <= j < i + 1 ensures EntryKey(entries[j]) != key {
            if j > 0 { assert entries[j] == entries[1..][j - 1]; }
          }
          assert FirstAt(entries, key, i + 1);
        }
      }
      r
  }

  /** The first entry for a key wins; keys already in `acc` are left alone. */
  lemma {:induction false} EntriesMapFirstWins(entries: seq<DynamicEntry>, acc: map<string, Expression>, key: string)
    ensures key in EntriesMap(entries, acc) <==> key in acc || FirstOf(entries, key).Some?
    ensures key in acc ==> EntriesMap(entries, acc)[key] == acc[key]
    ensures key !in acc && FirstOf(entries, key).Some? ==>
      EntriesMap(entries, acc)[key] == Variable(FirstOf(entries, key).value)
    decreases |entries|
  {
    if entries != [] {
      EntriesMapFirstWins(entries[1..], AddEntry(acc, entries[0]), key);
    }
  }

  function Meaning(spec: ModelSpec): Expression
    requires Meaningful(spec)
  {
    match spec
    case StaticSpec(path, indices, condition) =>
      var model := Literal(MapValue(StaticMap(path, indices)));
      if condition.None? then model
      else
        Binary(Case, Binary(Equal, Variable(condition.value.key), Literal(ConditionLiteral(condition.value.value))), model)
    case DynamicSpec(pathVariable, entries) =>
      MapExpression(EntriesMap(entries, map[PathKey := Variable(pathVariable)]))
  }

  function Meanings(specs: seq<ModelSpec>): (r: seq<Expression>)
    requires forall i :: 0 <= i < |specs| ==> Meaningful(specs[i])
    ensures |r| == |specs|
    ensures forall i :: 0 <= i < |specs| ==> r[i] == Meaning(specs[i])
  {
    if specs == [] then [] else [Meaning(specs[0])] + Meanings(specs[1..])
  }

  // ----- Reading specs back -----

  predicate EndsIndices(t: Token) {
    t.kind == Word || t.kind == Comma || t.kind == CParenthesis
  }

  lemma StaticIndicesNone(s: string, p: nat, t: Token)
    requires p <= |s| && Peek(s, p) == Ok(t) && EndsIndices(t)
    ensures StaticIndicesAt(s, p) == Ok(Indices([], t, p))
  {
  }

  lemma StaticIndicesOne(s: string, p: nat, a: int, t: Token)
    requires p <= |s| && Peek(s, p) == Ok(IntegerToken(a))
    requires Peek(s, After(s, p)) == Ok(t) && EndsIndices(t)
    ensures StaticIndicesAt(s, p) == Ok(Indices([a], t, After(s, p)))
  {
    IntegerTextValue(a);
  }

  lemma StaticIndicesTwo(s: string, p: nat, a: int, b: int, t: Token)
    requires p <= |s| && Peek(s, p) == Ok(IntegerToken(a))
    requires Peek(s, After(s, p)) == Ok(IntegerToken(b))
    requires Peek(s, After(s, After(s, p))) == Ok(t) && EndsIndices(t)
    ensures StaticIndicesAt(s, p) == Ok(Indices([a, b], t, After(s, After(s, p))))
  {
    IntegerTextValue(a);
    IntegerTextValue(b);
  }

  lemma ReadsNoIndex(s: string, p: nat, indices: seq<int>, ts: seq<Token>, m: nat, t: Token)
    requires p <= |s| && m <= |s| && indices == [] && ts == [] && Reads(s, p, ts, m)
    requires Peek(s, m) == Ok(t) && EndsIndices(t)
    ensures StaticIndicesAt(s, p) == Ok(Indices(indices, t, m))
  {
    ReadsNothing(s, p, m);
    StaticIndicesNone(s, p, t);
  }

  lemma ReadsTwoIndices(s: string, p: nat, indices: seq<int>, ts: seq<Token>, m: nat, t: Token)
    requires p <= |s| && m <= |s| && |indices| == 2
    requires ts == [IntegerToken(indices[0]), IntegerToken(indices[1])] && Reads(s, p, ts, m)
    requires Peek(s, m) == Ok(t) && EndsIndices(t)
    ensures StaticIndicesAt(s, p) == Ok(Indices(indices, t, m))
  {
    ReadsTwoTokens(s, p, IntegerToken(indices[0]), IntegerToken(indices[1]), m);
    StaticIndicesTwo(s, p, indices[0], indices[1], t);
    assert [indices[0], indices[1]] == indices;
  }

  lemma ReadsTwoTokens(s: string, p: nat, x: Token, y: Token, m: nat)
    requires p <= |s| && Reads(s, p, [x, y], m)
    ensures NextTokenAt(s, p).Ok? && Peek(s, p) == Ok(x)
    ensures NextTokenAt(s, After(s, p)).Ok? && Peek(s, After(s, p)) == Ok(y)
    ensures After(s, After(s, p)) == m
  {
    ReadsFirst(s, p, [x, y], m);
    assert [x, y][1..] == [y];
    ReadsFirst(s, After(s, p), [y], m);
    assert [y][1..] == [];
    ReadsNothing(s, After(s, After(s, p)), m);
  }

  lemma ReadsOneIndex(s: string, p: nat, indices: seq<int>, ts: seq<Token>, m: nat, t: Token)
    requires p <= |s| && m <= |s| && |indices| == 1
    requires ts == [IntegerToken(indices[0])] && Reads(s, p, ts, m)
    requires Peek(s, m) == Ok(t) && EndsIndices(t)
    ensures StaticIndicesAt(s, p) == Ok(Indices(indices, t, m))
  {
    ReadsFirst(s, p, ts, m);
    ReadsNothing(s, After(s, p), m);
    StaticIndicesOne(s, p, indices[0], t);
    assert [indices[0]] == indices;
  }

  lemma IndexTokensShort(indices: seq<int>)
    requires |indices| <= 2
    ensures |indices| == 1 ==> IndexTokens(indices) == [IntegerToken(indices[0])]
    ensures |indices| == 2 ==> IndexTokens(indices) == [IntegerToken(indices[0]), IntegerToken(indices[1])]
  {
  }

  /** The indices of a static spec read back as their values, with the token after
      them. */
  lemma StaticIndicesReads(s: string, p: nat, indices: seq<int>, ts: seq<Token>, m: nat, t: Token)
    requires p <= |s| && m <= |s| && |indices| <= 2
    requires ts == IndexTokens(indices) && Reads(s, p, ts, m)
    requires Peek(s, m) == Ok(t) && EndsIndices(t)
    ensures StaticIndicesAt(s, p) == Ok(Indices(indices, t, m))
  {
    IndexTokensShort(indices);
    if |indices| == 0 {
      ReadsNoIndex(s, p, indices, ts, m, t);
    } else if |indices| == 1 {
      ReadsOneIndex(s, p, indices, ts, m, t);
    } else {
      ReadsTwoIndices(s, p, indices, ts, m, t);
    }
  }

  lemma ParseStaticNoCondition(s: string, p: nat, path: string, indices: Indices)
    requires p <= |s| && Peek(s, p) == Ok(Token(String, path))
    requires StaticIndicesAt(s, After(s, p)) == Ok(indices) && indices.following.kind != Word
    ensures ParseStaticAt(s, p) == Ok((Literal(MapValue(StaticMap(path, indices.values))), indices.position))
  {
  }

  lemma ParseStaticCondition(s: string, p: nat, path: string, indices: Indices, value: ConditionValue, q: nat)
    requires p <= |s| && Peek(s, p) == Ok(Token(String, path))
    requires StaticIndicesAt(s, After(s, p)) == Ok(indices) && indices.following.kind == Word
    requires Peek(s, After(s, indices.position)) == Ok(Token(Equality, "="))
    requires Peek(s, After(s, After(s, indices.position))) == Ok(ValueToken(value))
    requires q == After(s, After(s, After(s, indices.position)))
    ensures ParseStaticAt(s, p) == Ok((Binary(Case,
      Binary(Equal, Variable(indices.following.data), Literal(ConditionLiteral(value))),
      Literal(MapValue(StaticMap(path, indices.values)))), q))
  {
    if value.IntegerLiteral? {
      IntegerTextValue(value.number);
    }
  }

  /** The tokens of a condition, one after the other. */
  lemma ConditionReads(s: string, p: nat, key: string, value: ConditionValue, ts: seq<Token>, q: nat)
    requires p <= |s| && ts == ConditionTokens(Some(Condition(key, value))) && Reads(s, p, ts, q)
    ensures Peek(s, p) == Ok(Token(Word, key))
    ensures Peek(s, After(s, p)) == Ok(Token(Equality, "="))
    ensures Peek(s, After(s, After(s, p))) == Ok(ValueToken(value))
    ensures q == After(s, After(s, After(s, p)))
  {
    ReadsFirst(s, p, ts, q);
    var p1 := After(s, p);
    ReadsFirst(s, p1, ts[1..], q);
    var p2 := After(s, p1);
    ReadsFirst(s, p2, ts[1..][1..], q);
    ReadsNothing(s, After(s, p2), q);
  }

  lemma StaticTokens(spec: ModelSpec)
    requires spec.StaticSpec?
    ensures SpecTokens(spec) != [] && SpecTokens(spec)[0] == Token(String, spec.path)
    ensures SpecTokens(spec)[1..] == IndexTokens(spec.indices) + ConditionTokens(spec.condition)
  {
  }

  /** A static spec reads back as its meaning when a comma or the closing
      parenthesis follows it. */
  lemma ParseStaticReads(s: string, p: nat, spec: ModelSpec, m: nat, next: Token)
    requires p <= |s| && m <= |s| && spec.StaticSpec? && ValidSpec(spec)
    requires Reads(s, p, SpecTokens(spec), m)
    requires Peek(s, m) == Ok(next) && (next.kind == Comma || next.kind == CParenthesis)
    ensures ParseStaticAt(s, p) == Ok((Meaning(spec), m))
  {
    var ts := SpecTokens(spec);
    StaticTokens(spec);
    ReadsFirst(s, p, ts, m);
    var p1 := After(s, p);
    var its := IndexTokens(spec.indices);
    var cts := ConditionTokens(spec.condition);
    ReadsSplit(s, p1, its, cts, m);
    var m1 := ReadEnd(s, p1, |its|);
    if spec.condition.None? {
      ReadsNothing(s, m1, m);
      StaticIndicesReads(s, p1, spec.indices, its, m, next);
      ParseStaticNoCondition(s, p, spec.path, Indices(spec.indices, next, m));
    } else {
      var c := spec.condition.value;
      ConditionReads(s, m1, c.key, c.value, cts, m);
      StaticIndicesReads(s, p1, spec.indices, its, m1, Token(Word, c.key));
      ParseStaticCondition(s, p, spec.path, Indices(spec.indices, Token(Word, c.key), m1), c.value, m);
    }
  }

  /** What a dynamic spec or its entries amount to when `next` follows them:
      only the closing parenthesis may. */
  function ClosesDynamic<T>(next: Token, v: T): Result<T, ParseError> {
    if next.kind == CParenthesis then Ok(v) else Err(UnexpectedToken(next, {Word, CParenthesis}))
  }

  lemma DynamicEntryStep(s: string, p: nat, acc: map<string, Expression>, e: DynamicEntry, q: nat, next: Token)
    requires p <= |s| && q <= |s| && Peek(s, p) == Ok(Token(Word, EntryName(e)))
    requires ParseNamedValueAt(s, p, EntryName(e)) == Ok((Variable(e.variable), q))
    requires Peek(s, q) == Ok(next)
    ensures DynamicEntriesAt(s, p, acc) ==
      if next.kind == Word then DynamicEntriesAt(s, q, AddEntry(acc, e))
      else ClosesDynamic(next, (AddEntry(acc, e), q))
  {
    DynamicKeyOfEntry(e);
  }

  /** The written name of an entry is recognised as that entry's key. */
  lemma DynamicKeyOfEntry(e: DynamicEntry)
    ensures DynamicKey(EntryName(e)) == Some((EntryKey(e), EntryName(e)))
  {
    assert EqualsIgnoreCase(EntryName(e), EntryName(e));
    assert !EqualsIgnoreCase("skinKey", "frameKey");
  }

  lemma EntryTokensFirst(entries: seq<DynamicEntry>)
    requires entries != []
    ensures EntryTokens(entries) == NamedTokens(EntryName(entries[0]), entries[0].variable) + EntryTokens(entries[1..])
    ensures EntryTokens(entries)[0] == Token(Word, EntryName(entries[0]))
  {
  }

  /** The entries of a dynamic spec read back as their map, first entry per key
      winning, when the closing parenthesis follows them; any other token but a
      word after them is an error. */
  lemma {:induction false} DynamicEntriesReads(s: string, p: nat, entries: seq<DynamicEntry>,
                                               acc: map<string, Expression>, m: nat, next: Token)
    requires p <= |s| && m <= |s| && entries != []
    requires Reads(s, p, EntryTokens(entries), m)
    requires Peek(s, m) == Ok(next) && next.kind != Word
    ensures DynamicEntriesAt(s, p, acc) == ClosesDynamic(next, (EntriesMap(entries, acc), m))
    decreases |entries|
  {
    var e := entries[0];
    var named := NamedTokens(EntryName(e), e.variable);
    var rest := EntryTokens(entries[1..]);
    EntryTokensFirst(entries);
    ReadsSplit(s, p, named, rest, m);
    var q := ReadEnd(s, p, |named|);
    NamedValueReads(s, p, EntryName(e), EntryName(e), e.variable, q);
    ReadsFirst(s, p, named, q);
    if entries[1..] == [] {
      ReadsNothing(s, q, m);
      DynamicEntryStep(s, p, acc, e, q, next);
    } else {
      EntryTokensFirst(entries[1..]);
      ReadsFirst(s, q, rest, m);
      DynamicEntryStep(s, p, acc, e, q, rest[0]);
      DynamicEntriesReads(s, q, entries[1..], AddEntry(acc, e), m, next);
    }
  }

  lemma ParseDynamicStep(s: string, p: nat, path: string, q: nat, next: Token)
    requires p <= |s| && q <= |s|
    requires ParseNamedValueAt(s, p, "pathKey") == Ok((Variable(path), q))
    requires Peek(s, q) == Ok(next)
    ensures ParseDynamicAt(s, p) ==
      if next.kind != Word then ClosesDynamic(next, (MapExpression(map[PathKey := Variable(path)]), q))
      else match DynamicEntriesAt(s, q, map[PathKey := Variable(path)])
        case Ok(more) => Ok((MapExpression(more.0), more.1))
        case Err(e) => Err(e)
  {
  }

  /** A dynamic spec reads back as its meaning when the closing parenthesis
      follows it; any other token but a word after it is an error. */
  lemma ParseDynamicReads(s: string, p: nat, spec: ModelSpec, m: nat, next: Token)
    requires p <= |s| && m <= |s| && spec.DynamicSpec?
    requires Reads(s, p, SpecTokens(spec), m)
    requires Peek(s, m) == Ok(next) && next.kind != Word
    ensures ParseDynamicAt(s, p) == ClosesDynamic(next, (Meaning(spec), m))
  {
    var named := NamedTokens("pathKey", spec.pathVariable);
    var rest := EntryTokens(spec.entries);
    ReadsSplit(s, p, named, rest, m);
    var q := ReadEnd(s, p, |named|);
    NamedValueReads(s, p, "pathKey", "pathKey", spec.pathVariable, q);
    var start := map[PathKey := Variable(spec.pathVariable)];
    if spec.entries == [] {
      ReadsNothing(s, q, m);
      ParseDynamicStep(s, p, spec.pathVariable, q, next);
    } else {
      EntryTokensFirst(spec.entries);
      ReadsFirst(s, q, rest, m);
      ParseDynamicStep(s, p, spec.pathVariable, q, rest[0]);
      DynamicEntriesReads(s, q, spec.entries, start, m, next);
    }
  }

  /** Reading past one token in front of a read. */
  lemma ReadsPast(s: string, p: nat, t: Token, ts: seq<Token>, q: nat)
    requires p <= |s| && Reads(s, p, [t] + ts, q)
    ensures NextTokenAt(s, p).Ok? && Peek(s, p) == Ok(t) && Reads(s, After(s, p), ts, q)
  {
    ReadsFirst(s, p, [t] + ts, q);
    assert ([t] + ts)[1..] == ts;
  }

  lemma SpecTokensFirst(spec: ModelSpec)
    ensures SpecTokens(spec) != []
    ensures spec.StaticSpec? ==> SpecTokens(spec)[0].kind == String
    ensures spec.DynamicSpec? ==> SpecTokens(spec)[0].kind == Word
  {
  }

  lemma ModelSpecsStep(s: string, p: nat, done: seq<Expression>, spec: ModelSpec, q: nat, next: Token)
    requires p <= |s| && q <= |s| && Meaningful(spec)
    requires Peek(s, p) == Ok(SpecTokens(spec)[0])
    requires (if spec.StaticSpec? then ParseStaticAt(s, p) else ParseDynamicAt(s, p)) == Ok((Meaning(spec), q))
    requires Peek(s, q) == Ok(next) && (next.kind == Comma || next.kind == CParenthesis)
    ensures ModelSpecsAt(s, p, done) ==
      if next.kind == Comma then ModelSpecsAt(s, After(s, q), done + [Meaning(spec)])
      else Ok((done + [Meaning(spec)], q))
  {
    SpecTokensFirst(spec);
  }

  lemma ValidListTail(specs: seq<ModelSpec>)
    requires ValidList(specs) && |specs| > 1
    ensures ValidList(specs[1..]) && ValidSpec(specs[0]) && specs[0].StaticSpec?
  {
    assert forall i :: 0 <= i < |specs[1..]| ==> specs[1..][i] == specs[i + 1];
  }

  lemma ModelSpecsLast(s: string, p: nat, spec: ModelSpec, done: seq<Expression>, m: nat, close: Token)
    requires p <= |s| && m <= |s| && ValidSpec(spec)
    requires Reads(s, p, SpecTokens(spec), m)
    requires Peek(s, m) == Ok(close) && close.kind == CParenthesis
    ensures ModelSpecsAt(s, p, done) == Ok((done + [Meaning(spec)], m))
  {
    SpecTokensFirst(spec);
    ReadsFirst(s, p, SpecTokens(spec), m);
    if spec.StaticSpec? {
      ParseStaticReads(s, p, spec, m, close);
    } else {
      ParseDynamicReads(s, p, spec, m, close);
    }
    ModelSpecsStep(s, p, done, spec, m, close);
  }

  lemma ModelSpecsFront(s: string, p: nat, spec: ModelSpec, done: seq<Expression>, q: nat, comma: Token)
    requires p <= |s| && q <= |s| && ValidSpec(spec) && spec.StaticSpec?
    requires Reads(s, p, SpecTokens(spec), q)
    requires Peek(s, q) == Ok(comma) && comma.kind == Comma
    ensures ModelSpecsAt(s, p, done) == ModelSpecsAt(s, After(s, q), done + [Meaning(spec)])
  {
    SpecTokensFirst(spec);
    ReadsFirst(s, p, SpecTokens(spec), q);
    ParseStaticReads(s, p, spec, q, comma);
    ModelSpecsStep(s, p, done, spec, q, comma);
  }

  lemma ListTokensFront(specs: seq<ModelSpec>)
    requires specs != []
    ensures |specs| == 1 ==> ListTokens(specs) == SpecTokens(specs[0])
    ensures |specs| > 1 ==> ListTokens(specs) == SpecTokens(specs[0]) + ([Token(Comma, ",")] + ListTokens(specs[1..]))
  {
  }

  lemma MeaningsFront(specs: seq<ModelSpec>, done: seq<Expression>)
    requires specs != [] && forall i :: 0 <= i < |specs| ==> Meaningful(specs[i])
    ensures |specs| == 1 ==> done + [Meaning(specs[0])] == done + Meanings(specs)
    ensures done + [Meaning(specs[0])] + Meanings(specs[1..]) == done + Meanings(specs)
  {
    MeaningfulTail(specs);
    var first := [Meaning(specs[0])];
    var rest := Meanings(specs[1..]);
    assert Meanings(specs) == first + rest;
    AppendAssoc(done, first, rest);
    if |specs| == 1 {
      assert first + rest == first;
    }
  }

  lemma MeaningfulTail(specs: seq<ModelSpec>)
    requires specs != [] && forall i :: 0 <= i < |specs| ==> Meaningful(specs[i])
    ensures forall i :: 0 <= i < |specs[1..]| ==> Meaningful(specs[1..][i])
  {
    forall i | 0 <= i < |specs[1..]| ensures Meaningful(specs[1..][i]) {
      assert specs[1..][i] == specs[i + 1];
    }
  }

  lemma AppendAssoc<T>(a: seq<T>, b: seq<T>, c: seq<T>)
    ensures a + b + c == a + (b + c)
  {
  }

  lemma WrittenTail(specs: seq<ModelSpec>)
    requires WellWritten(specs) && |specs| > 1
    ensures WellWritten(specs[1..]) && ValidSpec(specs[0])
  {
    assert forall i :: 0 <= i < |specs[1..]| ==> specs[1..][i] == specs[i + 1];
  }

  /** A list of more than one spec reads as its first spec, a comma and the rest. */
  lemma ListReadsFront(s: string, p: nat, specs: seq<ModelSpec>, m: nat) returns (q: nat)
    requires p <= |s| && m <= |s| && |specs| > 1
    requires Reads(s, p, ListTokens(specs), m)
    ensures q <= |s| && Reads(s, p, SpecTokens(specs[0]), q) && Peek(s, q) == Ok(Token(Comma, ","))
    ensures NextTokenAt(s, q).Ok? && Reads(s, After(s, q), ListTokens(specs[1..]), m)
  {
    var st := SpecTokens(specs[0]);
    var rest := ListTokens(specs[1..]);
    ListTokensFront(specs);
    ReadsSplit(s, p, st, [Token(Comma, ",")] + rest, m);
    q := ReadEnd(s, p, |st|);
    ReadsPast(s, q, Token(Comma, ","), rest, m);
  }

  /** Comma-separated specs read back as their meanings, appended to what was
      already parsed, when the closing parenthesis follows them. */
  lemma {:induction false} ModelSpecsReads(s: string, p: nat, specs: seq<ModelSpec>,
                                           done: seq<Expression>, m: nat, close: Token)
    requires p <= |s| && m <= |s| && ValidList(specs)
    requires Reads(s, p, ListTokens(specs), m)
    requires Peek(s, m) == Ok(close) && close.kind == CParenthesis
    ensures ModelSpecsAt(s, p, done) == Ok((done + Meanings(specs), m))
    decreases |specs|
  {
    var spec := specs[0];
    ListTokensFront(specs);
    MeaningsFront(specs, done);
    if |specs| == 1 {
      ModelSpecsLast(s, p, spec, done, m, close);
    } else {
      ValidListTail(specs);
      var q := ListReadsFront(s, p, specs, m);
      ModelSpecsFront(s, p, spec, done, q, Token(Comma, ","));
      ModelSpecsReads(s, After(s, q), specs[1..], done + [Meaning(spec)], m, close);
    }
  }

  // ----- The round trip -----

  lemma ReadableAppend(a: seq<Token>, b: seq<Token>)
    requires Readable(a) && Readable(b)
    ensures Readable(a + b)
  {
    forall i | 0 <= i < |a + b| ensures WellFormed((a + b)[i]) && (a + b)[i].kind != Eof {
      if i >= |a| { assert (a + b)[i] == b[i - |a|]; }
    }
  }

  /** The written names of a dynamic spec are words. */
  lemma NameIsWord(name: string)
    requires name == "pathKey" || name == "skinKey" || name == "frameKey"
    ensures WellFormed(Token(Word, name))
  {
    assert !IsDigit(name[0]) && !IsSign(name[0]);
  }

  lemma {:induction false} IndexTokensReadable(indices: seq<int>)
    ensures Readable(IndexTokens(indices))
  {
    forall i | 0 <= i < |indices| ensures WellFormed(IndexTokens(indices)[i]) {
      IntegerTextValue(indices[i]);
    }
  }

  lemma {:induction false} EntryTokensReadable(entries: seq<DynamicEntry>)
    requires forall i :: 0 <= i < |entries| ==> Unquoted(entries[i].variable)
    ensures Readable(EntryTokens(entries))
    decreases |entries|
  {
    if entries != [] {
      NameIsWord(EntryName(entries[0]));
      EntryTokensReadable(entries[1..]);
      ReadableAppend(NamedTokens(EntryName(entries[0]), entries[0].variable), EntryTokens(entries[1..]));
    }
  }

  lemma SpecReadable(spec: ModelSpec)
    requires ValidSpec(spec)
    ensures Readable(SpecTokens(spec))
  {
    match spec
    case StaticSpec(path, indices, condition) =>
      IndexTokensReadable(indices);
      if condition.Some? && condition.value.value.IntegerLiteral? {
        IntegerTextValue(condition.value.value.number);
      }
      ReadableAppend(IndexTokens(indices), ConditionTokens(condition));
      ReadableAppend([Token(String, path)], IndexTokens(indices) + ConditionTokens(condition));
    case DynamicSpec(pathVariable, entries) =>
      NameIsWord("pathKey");
      EntryTokensReadable(entries);
      ReadableAppend(NamedTokens("pathKey", pathVariable), EntryTokens(entries));
  }

  lemma {:induction false} ListReadable(specs: seq<ModelSpec>)
    requires WellWritten(specs)
    ensures Readable(ListTokens(specs))
    decreases |specs|
  {
    SpecReadable(specs[0]);
    if |specs| > 1 {
      WrittenTail(specs);
      ListReadable(specs[1..]);
      ReadableAppend([Token(Comma, ",")], ListTokens(specs[1..]));
      ReadableAppend(SpecTokens(specs[0]), [Token(Comma, ",")] + ListTokens(specs[1..]));
    }
  }

  /** A text split into its two parts. */
  lemma SplitText(s: string, a: string, b: string)
    requires s == a + b
    ensures s[0..|a|] == a && s[|a|..] == b && s[|a|..|a| + |b|] == b
  {
  }

  /** Rendered tokens followed by a rendered closing parenthesis read back as
      themselves, with the closing parenthesis next. */
  lemma TextReads(s: string, ts: seq<Token>, k: nat)
    requires Readable(ts) && k == |Render(ts)|
    requires s == Render(ts) + Render([Token(CParenthesis, ")")])
    ensures k <= |s| && Reads(s, 0, ts, k) && Peek(s, k) == Ok(Token(CParenthesis, ")"))
  {
    RenderClose();
    SplitText(s, Render(ts), " )");
    PrefixRendered(s, ts, k);
    RenderReads(s, 0, ts, k);
    CloseReads(s, k);
  }

  lemma RenderClose()
    ensures Render([Token(CParenthesis, ")")]) == " )"
  {
    assert [Token(CParenthesis, ")")][1..] == [];
  }

  lemma PrefixRendered(s: string, ts: seq<Token>, k: nat)
    requires k == |Render(ts)| && k < |s| && s[0..k] == Render(ts) && s[k] == ' '
    ensures RenderedAt(s, 0, ts)
  {
  }

  /** A rendered closing parenthesis at the end of the text reads back. */
  lemma CloseReads(s: string, k: nat)
    requires k + 2 == |s| && s[k..] == " )"
    ensures Reads(s, k, [Token(CParenthesis, ")")], |s|) && Peek(s, k) == Ok(Token(CParenthesis, ")"))
  {
    var close := [Token(CParenthesis, ")")];
    RenderClose();
    assert s[k..k + 2] == s[k..];
    assert RenderedAt(s, k, close);
    assert Readable(close);
    RenderReads(s, k, close, |s|);
    ReadsFirst(s, k, close, |s|);
  }

  /** A definition that is closed right away, after any whitespace, is the undefined
      literal, and the cursor does not move. */
  lemma EmptyDefinition(s: string, p: nat)
    requires p <= |s| && SkipWhitespace(s, p) < |s| && s[SkipWhitespace(s, p)] == ')'
    ensures ParseModelDefinitionAt(s, p) == Ok((Literal(Undefined), p))
  {
  }

  lemma ParseDefinitionStep(s: string, t: Token, results: seq<Expression>, q: nat)
    requires Peek(s, 0) == Ok(t) && (t.kind == String || t.kind == Word)
    requires ModelSpecsAt(s, 0, []) == Ok((results, q))
    ensures ParseModelDefinitionAt(s, 0) == Ok((Switch(Reverse(results)), q))
  {
  }

  /** The round trip: a formatted list of specs parses as the Switch of their
      meanings in reverse order, stopping before the closing parenthesis. */
  lemma ParseFormatted(specs: seq<ModelSpec>)
    requires ValidList(specs)
    ensures ParseModelDefinitionAt(Format(specs), 0) == Ok((Switch(Reverse(Meanings(specs))), |Format(specs)| - 2))
  {
    var ts := ListTokens(specs);
    var close := Token(CParenthesis, ")");
    var s := Format(specs);
    RenderAppend(ts, [close]);
    assert |Render([close])| == 2;
    var k := |Render(ts)|;
    ListReadable(specs);
    TextReads(s, ts, k);
    ModelSpecsReads(s, 0, specs, [], k, close);
    assert [] + Meanings(specs) == Meanings(specs);
    SpecTokensFirst(specs[0]);
    ListTokensFront(specs);
    ReadsFirst(s, 0, ts, k);
    ParseDefinitionStep(s, ts[0], Meanings(specs), k);
  }

  lemma ModelSpecsDynamicFails(s: string, p: nat, done: seq<Expression>, t: Token, e: ParseError)
    requires p <= |s| && Peek(s, p) == Ok(t) && t.kind == Word && ParseDynamicAt(s, p) == Err(e)
    ensures ModelSpecsAt(s, p, done) == Err(e)
  {
  }

  /** Specs in which a dynamic spec comes before the last fail to read back: a
      comma follows the dynamic spec where only the closing parenthesis may. */
  lemma {:induction false} ModelSpecsFail(s: string, p: nat, specs: seq<ModelSpec>, i: nat,
                                          done: seq<Expression>, m: nat)
    requires p <= |s| && m <= |s| && WellWritten(specs)
    requires i < |specs| - 1 && specs[i].DynamicSpec?
    requires Reads(s, p, ListTokens(specs), m)
    ensures ModelSpecsAt(s, p, done) == Err(UnexpectedToken(Token(Comma, ","), {Word, CParenthesis}))
    decreases i
  {
    var spec := specs[0];
    WrittenTail(specs);
    var q := ListReadsFront(s, p, specs, m);
    var e := UnexpectedToken(Token(Comma, ","), {Word, CParenthesis});
    if spec.DynamicSpec? {
      DynamicSpecFails(s, p, spec, done, q);
    } else {
      DynamicInTail(specs, i);
      assert ModelSpecsAt(s, After(s, q), done + [Meaning(spec)]) == Err(e) by {
        ModelSpecsFail(s, After(s, q), specs[1..], i - 1, done + [Meaning(spec)], m);
      }
      StaticThenFails(s, p, spec, done, q, e);
    }
  }

  /** A static spec followed by a comma passes an error of the rest of the list on. */
  lemma StaticThenFails(s: string, p: nat, spec: ModelSpec, done: seq<Expression>, q: nat, e: ParseError)
    requires p <= |s| && q <= |s| && ValidSpec(spec) && spec.StaticSpec?
    requires Reads(s, p, SpecTokens(spec), q) && Peek(s, q) == Ok(Token(Comma, ","))
    requires NextTokenAt(s, q).Ok? && ModelSpecsAt(s, After(s, q), done + [Meaning(spec)]) == Err(e)
    ensures ModelSpecsAt(s, p, done) == Err(e)
  {
    ModelSpecsFront(s, p, spec, done, q, Token(Comma, ","));
  }

  lemma DynamicInTail(specs: seq<ModelSpec>, i: nat)
    requires i < |specs| && specs[i].DynamicSpec? && specs[0].StaticSpec?
    ensures 0 < i && specs[1..][i - 1].DynamicSpec?
  {
  }

  /** A dynamic spec followed by a comma fails the list. */
  lemma DynamicSpecFails(s: string, p: nat, spec: ModelSpec, done: seq<Expression>, q: nat)
    requires p <= |s| && q <= |s| && spec.DynamicSpec?
    requires Reads(s, p, SpecTokens(spec), q) && Peek(s, q) == Ok(Token(Comma, ","))
    ensures ModelSpecsAt(s, p, done) == Err(UnexpectedToken(Token(Comma, ","), {Word, CParenthesis}))
  {
    var comma := Token(Comma, ",");
    var st := SpecTokens(spec);
    SpecTokensFirst(spec);
    ReadsFirst(s, p, st, q);
    ParseDynamicReads(s, p, spec, q, comma);
    ModelSpecsDynamicFails(s, p, done, st[0], UnexpectedToken(comma, {Word, CParenthesis}));
  }

  lemma ParseDefinitionFails(s: string, t: Token, e: ParseError)
    requires Peek(s, 0) == Ok(t) && (t.kind == String || t.kind == Word)
    requires ModelSpecsAt(s, 0, []).Err? && ModelSpecsAt(s, 0, []).error == e
    ensures ParseModelDefinitionAt(s, 0) == Err(e)
  {
  }

  /** A dynamic spec anywhere but last makes the whole definition fail to parse. */
  lemma DynamicNotLast(specs: seq<ModelSpec>, i: nat)
    requires WellWritten(specs) && i < |specs| - 1 && specs[i].DynamicSpec?
    ensures ParseModelDefinitionAt(Format(specs), 0) == Err(UnexpectedToken(Token(Comma, ","), {Word, CParenthesis}))
  {
    var ts := ListTokens(specs);
    var close := Token(CParenthesis, ")");
    var s := Format(specs);
    RenderAppend(ts, [close]);
    assert |Render([close])| == 2;
    var k := |Render(ts)|;
    ListReadable(specs);
    TextReads(s, ts, k);
    ModelSpecsFail(s, 0, specs, i, [], k);
    SpecTokensFirst(specs[0]);
    ListTokensFront(specs);
    ReadsFirst(s, 0, ts, k);
    ParseDefinitionFails(s, ts[0], UnexpectedToken(Token(Comma, ","), {Word, CParenthesis}));
  }
}
