/** The tokenizer of legacy (Quake-style) model definitions: the text between the
    parentheses of `model(...)` in an entity definition, such as
    `"progs/a.mdl" 1 2 spawnflags = 4, pathKey = "model"`.

    The reference behaviour is the pure function NextTokenAt over the input text
    and a cursor; the class Tokenizer is the cursor-advancing implementation,
    proved to agree with it. */
module LegacyModelTokenizer {
  import opened Wrappers

  datatype TokenKind = Integer | String | Word | Comma | Equality | CParenthesis | Eof

  /** A token and the text it covers; a quoted string's data is the text between
      the quotes, the end of input carries no text. */
  datatype Token = Token(kind: TokenKind, data: string)

  /** Where and why tokenizing failed: the position is where the cursor stands
      when the failure is detected. */
  datatype TokenError =
    | UnexpectedCharacter(position: nat, c: char)
    | UnterminatedString(position: nat)

  predicate IsWhitespace(c: char) {
    c == ' ' || c == '\t' || c == '\n' || c == '\r'
  }

  /** The characters that end a word or an integer: " \t\n\r()[]{};,=". */
  predicate IsWordDelim(c: char) {
    IsWhitespace(c) || c == '(' || c == ')' || c == '[' || c == ']' || c == '{' || c == '}'
    || c == ';' || c == ',' || c == '='
  }

  predicate IsDigit(c: char) {
    '0' <= c <= '9'
  }

  predicate IsSign(c: char) {
    c == '+' || c == '-'
  }

  predicate AllDigits(t: string) {
    forall k :: 0 <= k < |t| ==> IsDigit(t[k])
  }

  /** An optional sign followed by at least one digit. */
  predicate IsIntegerText(t: string) {
    |t| > 0 && if IsSign(t[0]) then |t| > 1 && AllDigits(t[1..]) else AllDigits(t)
  }

  /** The first position at or after `i` that is not whitespace. */
  function SkipWhitespace(s: string, i: nat): (r: nat)
    requires i <= |s|
    ensures i <= r <= |s|
    ensures forall k :: i <= k < r ==> IsWhitespace(s[k])
    ensures r < |s| ==> !IsWhitespace(s[r])
    decreases |s| - i
  {
    if i < |s| && IsWhitespace(s[i]) then SkipWhitespace(s, i + 1) else i
  }

  /** The end of the run of digits starting at `i`. */
  function DigitsEnd(s: string, i: nat): (r: nat)
    requires i <= |s|
    ensures i <= r <= |s|
    ensures forall k :: i <= k < r ==> IsDigit(s[k])
    ensures r < |s| ==> !IsDigit(s[r])
    decreases |s| - i
  {
    if i < |s| && IsDigit(s[i]) then DigitsEnd(s, i + 1) else i
  }

  /** The end of the run of non-delimiters starting at `i` (the tokenizer's readUntil). */
  function WordEnd(s: string, i: nat): (r: nat)
    requires i <= |s|
    ensures i <= r <= |s|
    ensures forall k :: i <= k < r ==> !IsWordDelim(s[k])
    ensures r < |s| ==> IsWordDelim(s[r])
    decreases |s| - i
  {
    if i < |s| && !IsWordDelim(s[i]) then WordEnd(s, i + 1) else i
  }

  /** The position of the first double quote at or after `i`, None when the input
      ends first. */
  function QuoteEnd(s: string, i: nat): (r: Option<nat>)
    requires i <= |s|
    ensures r.Some? ==> i <= r.value < |s| && s[r.value] == '"'
    ensures forall k :: i <= k < |s| && (r.None? || k < r.value) ==> s[k] != '"'
    decreases |s| - i
  {
    if i == |s| then None else if s[i] == '"' then Some(i) else QuoteEnd(s, i + 1)
  }

  /** The end of a signed integer starting at `i` that is followed by the end of input
      or a word delimiter (the tokenizer's readInteger with the word delimiters). */
  function IntegerEnd(s: string, i: nat): (r: Option<nat>)
    requires i <= |s|
  {
    var j := if i < |s| && IsSign(s[i]) then i + 1 else i;
    var k := DigitsEnd(s, j);
    if k > j && (k == |s| || IsWordDelim(s[k])) then Some(k) else None
  }

  /** The token that starts at or after `pos`, and the position after it. */
  function NextTokenAt(s: string, pos: nat): (r: Result<(Token, nat), TokenError>)
    requires pos <= |s|
    ensures r.Ok? ==> pos <= r.value.1 <= |s|
    ensures r.Ok? && r.value.0.kind != Eof ==> pos < r.value.1
  {
    var p := SkipWhitespace(s, pos);
    if p == |s| then Ok((Token(Eof, ""), p))
    else if s[p] == '=' then Ok((Token(Equality, "="), p + 1))
    else if s[p] == ')' then Ok((Token(CParenthesis, ")"), p + 1))
    else if s[p] == ',' then Ok((Token(Comma, ","), p + 1))
    else if s[p] == '"' then
      match QuoteEnd(s, p + 1)
      case None => Err(UnterminatedString(|s|))
      case Some(e) => Ok((Token(String, s[p + 1..e]), e + 1))
    else
      match IntegerEnd(s, p)
      case Some(e) => Ok((Token(Integer, s[p..e]), e))
      case None =>
        var e := WordEnd(s, p);
        if e > p then Ok((Token(Word, s[p..e]), e)) else Err(UnexpectedCharacter(p, s[p]))
  }

  /** The token part of a tokenizing step. */
  function TokenOf(r: Result<(Token, nat), TokenError>): (t: Result<Token, TokenError>)
    ensures t.Ok? <==> r.Ok?
  {
    match r
    case Ok((token, _)) => Ok(token)
    case Err(e) => Err(e)
  }

  // ----- What a token looks like -----

  lemma {:induction false} IntegerEndIsInteger(s: string, i: nat)
    requires i <= |s|
    ensures IntegerEnd(s, i).Some? ==>
      i < IntegerEnd(s, i).value <= |s| && IsIntegerText(s[i..IntegerEnd(s, i).value])
      && (IntegerEnd(s, i).value == |s| || IsWordDelim(s[IntegerEnd(s, i).value]))
  {
    var j := if i < |s| && IsSign(s[i]) then i + 1 else i;
    var k := DigitsEnd(s, j);
    if k > j && (k == |s| || IsWordDelim(s[k])) {
      var t := s[i..k];
      if IsSign(s[i]) {
        assert t[1..] == s[j..k];
      } else {
        assert t == s[j..k];
      }
    }
  }

  /** readInteger finds an integer exactly when the text at `i` is a signed integer
      followed by the end of input or a delimiter. */
  lemma {:induction false} IntegerEndComplete(s: string, i: nat, e: nat)
    requires i < e <= |s| && IsIntegerText(s[i..e])
    requires e == |s| || IsWordDelim(s[e])
    ensures IntegerEnd(s, i) == Some(e)
  {
    var t := s[i..e];
    var j := if IsSign(s[i]) then i + 1 else i;
    assert s[i] == t[0];
    forall k | j <= k < e ensures IsDigit(s[k]) {
      if IsSign(s[i]) { assert s[k] == t[1..][k - j]; } else { assert s[k] == t[k - j]; }
    }
    DigitsEndAt(s, j, e);
  }

  lemma {:induction false} DigitsEndAt(s: string, j: nat, e: nat)
    requires j <= e <= |s|
    requires forall k :: j <= k < e ==> IsDigit(s[k])
    requires e == |s| || !IsDigit(s[e])
    ensures DigitsEnd(s, j) == e
    decreases e - j
  {
    if j < e { DigitsEndAt(s, j + 1, e); }
  }

  lemma {:induction false} WordEndAt(s: string, j: nat, e: nat)
    requires j <= e <= |s|
    requires forall k :: j <= k < e ==> !IsWordDelim(s[k])
    requires e == |s| || IsWordDelim(s[e])
    ensures WordEnd(s, j) == e
    decreases e - j
  {
    if j < e { WordEndAt(s, j + 1, e); }
  }

  lemma {:induction false} QuoteEndAt(s: string, j: nat, e: nat)
    requires j <= e < |s| && s[e] == '"'
    requires forall k :: j <= k < e ==> s[k] != '"'
    ensures QuoteEnd(s, j) == Some(e)
    decreases e - j
  {
    if j < e { QuoteEndAt(s, j + 1, e); }
  }

  lemma {:induction false} SkipWhitespaceAt(s: string, j: nat, e: nat)
    requires j <= e <= |s|
    requires forall k :: j <= k < e ==> IsWhitespace(s[k])
    requires e == |s| || !IsWhitespace(s[e])
    ensures SkipWhitespace(s, j) == e
    decreases e - j
  {
    if j < e { SkipWhitespaceAt(s, j + 1, e); }
  }

  /** Every token the tokenizer produces has the shape of its kind: an integer is a
      signed run of digits; a word is non-empty, holds no delimiter, does not start
      with a quote and is not an integer; a quoted string holds no quote; the
      punctuation tokens are their one character. */
  predicate WellFormed(t: Token) {
    match t.kind
    case Integer => IsIntegerText(t.data)
    case Word => |t.data| > 0 && t.data[0] != '"' && !IsIntegerText(t.data)
      && (forall k :: 0 <= k < |t.data| ==> !IsWordDelim(t.data[k]))
    case String => forall k :: 0 <= k < |t.data| ==> t.data[k] != '"'
    case Comma => t.data == ","
    case Equality => t.data == "="
    case CParenthesis => t.data == ")"
    case Eof => t.data == ""
  }

  /** Every token NextTokenAt produces is well formed. */
  lemma {:induction false} NextTokenWellFormed(s: string, pos: nat)
    requires pos <= |s|
    ensures NextTokenAt(s, pos).Ok? ==> WellFormed(NextTokenAt(s, pos).value.0)
  {
    var p := SkipWhitespace(s, pos);
    if p < |s| && s[p] != '=' && s[p] != ')' && s[p] != ',' {
      if s[p] == '"' {
        match QuoteEnd(s, p + 1)
        case None =>
        case Some(e) =>
          var t := s[p + 1..e];
          assert forall k :: 0 <= k < |t| ==> t[k] == s[p + 1 + k];
      } else {
        IntegerEndIsInteger(s, p);
        if IntegerEnd(s, p).None? && WordEnd(s, p) > p {
          WordWellFormed(s, p, WordEnd(s, p));
        }
      }
    }
  }

  /** A word the tokenizer cuts out of the text is well formed: integers are taken
      before words, so a word never reads as an integer. */
  lemma WordWellFormed(s: string, p: nat, e: nat)
    requires p < e <= |s| && IntegerEnd(s, p).None? && s[p] != '"'
    requires e == WordEnd(s, p)
    ensures WellFormed(Token(Word, s[p..e]))
  {
    var t := s[p..e];
    assert forall k :: 0 <= k < |t| ==> t[k] == s[p + k];
    if IsIntegerText(t) {
      IntegerEndComplete(s, p, e);
      assert false;
    }
  }

  /** Only the end of input yields Eof: what is left after the cursor is whitespace. */
  lemma NextTokenEof(s: string, pos: nat)
    requires pos <= |s|
    ensures NextTokenAt(s, pos).Ok? && NextTokenAt(s, pos).value.0.kind == Eof ==>
      forall k :: pos <= k < |s| ==> IsWhitespace(s[k])
  {
  }

  /** Tokenizing fails exactly at an unterminated quoted string, or at a delimiter
      that is not a token of its own: one of "([]{};". */
  lemma NextTokenFails(s: string, pos: nat)
    requires pos <= |s|
    ensures var p := SkipWhitespace(s, pos);
      NextTokenAt(s, pos).Err? <==>
        p < |s| && ((s[p] == '"' && QuoteEnd(s, p + 1).None?)
                    || s[p] == '(' || s[p] == '[' || s[p] == ']' || s[p] == '{' || s[p] == '}' || s[p] == ';')
  {
    var p := SkipWhitespace(s, pos);
    if p < |s| && s[p] != '"' && IsWordDelim(s[p]) {
      assert DigitsEnd(s, p) == p;
    }
  }

  // ----- Reading a rendered token back -----

  /** The source text of a token. */
  function TokenText(t: Token): (r: string)
    ensures t.kind == String ==> |r| == |t.data| + 2
    ensures t.kind != String ==> r == t.data
  {
    if t.kind == String then "\"" + t.data + "\"" else t.data
  }

  /** A well-formed token other than Eof, preceded by one space and followed by the
      end of input or (for integers and words) a delimiter, reads back as itself. */
  lemma {:induction false} ReadBack(s: string, p: nat, t: Token, e: nat)
    requires WellFormed(t) && t.kind != Eof
    requires e == p + 1 + |TokenText(t)| && e <= |s|
    requires s[p] == ' ' && s[p + 1..e] == TokenText(t)
    requires (t.kind == Integer || t.kind == Word) ==> e == |s| || IsWordDelim(s[e])
    ensures NextTokenAt(s, p) == Ok((t, e))
  {
    if t.kind == String {
      ReadBackString(s, p, t.data);
    } else if t.kind == Integer || t.kind == Word {
      ReadBackWordLike(s, p, t);
    } else {
      assert s[p + 1] == s[p + 1..e][0] == t.data[0];
      SkipWhitespaceAt(s, p, p + 1);
    }
  }

  lemma {:induction false} ReadBackString(s: string, p: nat, data: string)
    requires forall k :: 0 <= k < |data| ==> data[k] != '"'
    requires p + 3 + |data| <= |s|
    requires s[p] == ' ' && s[p + 1..p + 3 + |data|] == "\"" + data + "\""
    ensures NextTokenAt(s, p) == Ok((Token(String, data), p + 3 + |data|))
  {
    var q := p + 1;
    var e := p + 3 + |data|;
    var text := s[q..e];
    assert s[q] == text[0] == '"';
    SkipWhitespaceAt(s, p, q);
    forall k | q + 1 <= k < e - 1 ensures s[k] != '"' {
      assert s[k] == text[k - q] == data[k - q - 1];
    }
    assert s[e - 1] == text[|text| - 1] == '"';
    QuoteEndAt(s, q + 1, e - 1);
    assert s[q + 1..e - 1] == data by {
      forall k | 0 <= k < |data| ensures s[q + 1..e - 1][k] == data[k] {
        assert s[q + 1 + k] == text[k + 1];
      }
    }
  }

  lemma {:induction false} ReadBackWordLike(s: string, p: nat, t: Token)
    requires (t.kind == Integer || t.kind == Word) && WellFormed(t)
    requires p + 1 + |t.data| <= |s|
    requires s[p] == ' ' && s[p + 1..p + 1 + |t.data|] == t.data
    requires p + 1 + |t.data| == |s| || IsWordDelim(s[p + 1 + |t.data|])
    ensures NextTokenAt(s, p) == Ok((t, p + 1 + |t.data|))
  {
    var q := p + 1;
    var e := q + |t.data|;
    assert s[q] == t.data[0];
    SkipWhitespaceAt(s, p, q) by {
      if t.kind == Integer { assert IsSign(t.data[0]) || IsDigit(t.data[0]); }
    }
    if t.kind == Integer {
      IntegerEndComplete(s, q, e);
    } else {
      forall k | q <= k < e ensures !IsWordDelim(s[k]) { assert s[k] == t.data[k - q]; }
      if IntegerEnd(s, q).Some? {
        IntegerEndIsInteger(s, q);
        WordIntegerPrefix(s, q, e, IntegerEnd(s, q).value);
        assert false;
      }
      WordEndAt(s, q, e);
    }
  }

  /** An integer that ends at a delimiter, read at the start of a run of
      non-delimiters, covers the whole run. */
  lemma {:induction false} WordIntegerPrefix(s: string, q: nat, e: nat, f: nat)
    requires q < f <= |s| && q < e <= |s|
    requires forall k :: q <= k < e ==> !IsWordDelim(s[k])
    requires e == |s| || IsWordDelim(s[e])
    requires f == |s| || IsWordDelim(s[f])
    requires IsIntegerText(s[q..f])
    ensures f == e
  {
    if e < f {
      assert false;
    }
  }

  // ----- The cursor-advancing implementation -----

  class Tokenizer {
    const input: string
    var position: nat

    ghost predicate Valid()
      reads this
    {
      position <= |input|
    }

    constructor (input: string)
      ensures Valid() && this.input == input && position == 0
    {
      this.input := input;
      position := 0;
    }

    /** Advances over a signed integer that ends at a delimiter or the end of input
        and returns its end; restores the cursor and returns None otherwise. */
    method ReadInteger() returns (r: Option<nat>)
      requires Valid()
      modifies this
      ensures Valid()
      ensures r == IntegerEnd(input, old(position))
      ensures position == if r.Some? then r.value else old(position)
    {
      var start := position;
      if position < |input| && IsSign(input[position]) {
        position := position + 1;
      }
      var digitsStart := position;
      while position < |input| && IsDigit(input[position])
        invariant digitsStart <= position <= |input|
        invariant DigitsEnd(input, digitsStart) == DigitsEnd(input, position)
        decreases |input| - position
      {
        position := position + 1;
      }
      if position > digitsStart && (position == |input| || IsWordDelim(input[position])) {
        r := Some(position);
      } else {
        position := start;
        r := None;
      }
    }

    /** Advances to the next delimiter or the end of input; None when the cursor
        already stands on a delimiter. */
    method ReadUntil() returns (r: Option<nat>)
      requires Valid() && position < |input|
      modifies this
      ensures Valid()
      ensures r == if WordEnd(input, old(position)) > old(position)
        then Some(WordEnd(input, old(position))) else None
      ensures position == WordEnd(input, old(position))
    {
      var start := position;
      while position < |input| && !IsWordDelim(input[position])
        invariant start <= position <= |input|
        invariant WordEnd(input, start) == WordEnd(input, position)
        decreases |input| - position
      {
        position := position + 1;
      }
      r := if position > start then Some(position) else None;
    }

    /** Advances past the closing quote and returns its position; fails at the end
        of input when there is none. */
    method ReadQuotedString() returns (r: Result<nat, TokenError>)
      requires Valid()
      modifies this
      ensures Valid()
      ensures r == match QuoteEnd(input, old(position))
        case None => Err(UnterminatedString(|input|))
        case Some(e) => Ok(e)
      ensures position == if r.Ok? then r.value + 1 else |input|
    {
      while position < |input| && input[position] != '"'
        invariant old(position) <= position <= |input|
        invariant QuoteEnd(input, old(position)) == QuoteEnd(input, position)
        decreases |input| - position
      {
        position := position + 1;
      }
      if position == |input| {
        return Err(UnterminatedString(|input|));
      }
      r := Ok(position);
      position := position + 1;
    }

    /** Produces the next token and advances past it; on failure the cursor stays
        where the failure was detected. */
    method EmitToken() returns (r: Result<Token, TokenError>)
      requires Valid()
      modifies this
      ensures Valid()
      ensures r == TokenOf(NextTokenAt(input, old(position)))
      ensures r.Ok? ==> position == NextTokenAt(input, old(position)).value.1
      ensures r.Err? ==> position == r.error.position
    {
      while position < |input|
        invariant old(position) <= position <= |input|
        invariant SkipWhitespace(input, old(position)) == SkipWhitespace(input, position)
        decreases |input| - position
      {
        var c := input[position];
        if c == '=' {
          position := position + 1;
          return Ok(Token(Equality, "="));
        } else if c == ')' {
          position := position + 1;
          return Ok(Token(CParenthesis, ")"));
        } else if c == ',' {
          position := position + 1;
          return Ok(Token(Comma, ","));
        } else if IsWhitespace(c) {
          position := position + 1;
        } else if c == '"' {
          position := position + 1;
          var start := position;
          var e := ReadQuotedString();
          if e.Err? {
            return Err(e.error);
          }
          return Ok(Token(String, input[start..e.value]));
        } else {
          var start := position;
          var ie := ReadInteger();
          if ie.Some? {
            return Ok(Token(Integer, input[start..ie.value]));
          }
          var we := ReadUntil();
          if we.Some? {
            return Ok(Token(Word, input[start..we.value]));
          }
          return Err(UnexpectedCharacter(position, c));
        }
      }
      return Ok(Token(Eof, ""));
    }

    /** The next token, consumed. */
    method NextToken() returns (r: Result<Token, TokenError>)
      requires Valid()
      modifies this
      ensures Valid()
      ensures r == TokenOf(NextTokenAt(input, old(position)))
      ensures r.Ok? ==> position == NextTokenAt(input, old(position)).value.1
    {
      r := EmitToken();
    }

    /** The next token, with the cursor restored afterwards. */
    method PeekToken() returns (r: Result<Token, TokenError>)
      requires Valid()
      modifies this
      ensures Valid() && position == old(position)
      ensures r == TokenOf(NextTokenAt(input, position))
    {
      var snapshot := position;
      r := EmitToken();
      position := snapshot;
    }
  }
}
