/** The token reader of encoding/json: Decoder.Token and Decoder.More over the input that
    is left, the state between tokens and the stack of enclosing states. The package is
    not part of the repository. */
module Tokens {
  import opened Utf8
  import opened Values
  import opened Grammar
  import opened Lexer

  datatype DecodeError =
    | InvalidUtf8
    | UnpairedSurrogate
    | EndOfInput
    | Syntax
    | TooDeep
    | UnexpectedDelimiter
    | KeyNotString
    | DuplicateKey
    | TrailingData

  datatype Result<+T> = Ok(value: T) | Err(error: DecodeError)

  datatype Token = Open(isObject: bool) | Close(isObject: bool) | Lit(v: Value)

  datatype State =
    | TopValue
    | ArrayStart | ArrayValue | ArrayComma
    | ObjectStart | ObjectKey | ObjectColon | ObjectValue | ObjectComma

  datatype Reader = Reader(rest: ByteString, state: State, stack: seq<State>)

  predicate ValueAllowed(s: State) {
    s.TopValue? || s.ArrayStart? || s.ArrayValue? || s.ObjectValue?
  }

  /** The state once a value is complete. */
  function ValueEnd(s: State): State {
    match s
    case ArrayStart => ArrayComma
    case ArrayValue => ArrayComma
    case ObjectValue => ObjectComma
    case _ => s
  }

  /** The reader past the end of the container it is in. */
  function Popped(d: Reader, rest: ByteString): Reader
    requires d.stack != []
  {
    Reader(rest, ValueEnd(d.stack[|d.stack| - 1]), d.stack[..|d.stack| - 1])
  }

  /** A scalar value at the head of s, and what follows it. */
  function ReadLiteral(s: ByteString): (r: Option<(Value, ByteString)>)
    requires s != []
    ensures r.Some? ==> |r.value.1| < |s|
  {
    if s[0] == QUOTE then
      match ReadString(s[1..])
      case None => None
      case Some((text, rest)) => Some((Str(text), rest))
    else if NULL <= s then Some((Null, s[4..]))
    else if TRUE <= s then Some((Bool(true), s[4..]))
    else if FALSE <= s then Some((Bool(false), s[5..]))
    else
      match ReadNumber(s)
      case None => None
      case Some(rest) => Some((Number(s[..|s| - |rest|]), rest))
  }

  /** Decoder.Token: separators are consumed where the state calls for one. */
  function Next(d: Reader): (r: Result<(Token, Reader)>)
    ensures r.Ok? ==> |r.value.1.rest| < |d.rest|
    decreases |d.rest|
  {
    var s := SkipSpace(d.rest);
    if s == [] then Err(EndOfInput)
    else
      var c := s[0];
      if c == LBRACKET || c == LBRACE then
        if ValueAllowed(d.state) then
          Ok((Open(c == LBRACE),
              Reader(s[1..], if c == LBRACE then ObjectStart else ArrayStart, d.stack + [d.state])))
        else Err(Syntax)
      else if c == RBRACKET || c == RBRACE then
        if (if c == RBRACE then d.state.ObjectStart? || d.state.ObjectComma? else d.state.ArrayStart? || d.state.ArrayComma?)
           && d.stack != []
        then Ok((Close(c == RBRACE), Popped(d, s[1..])))
        else Err(Syntax)
      else if c == COLON then
        if d.state.ObjectColon? then Next(Reader(s[1..], ObjectValue, d.stack)) else Err(Syntax)
      else if c == COMMA then
        if d.state.ArrayComma? then Next(Reader(s[1..], ArrayValue, d.stack))
        else if d.state.ObjectComma? then Next(Reader(s[1..], ObjectKey, d.stack))
        else Err(Syntax)
      else if c == QUOTE && (d.state.ObjectStart? || d.state.ObjectKey?) then
        match ReadString(s[1..])
        case None => Err(Syntax)
        case Some((text, rest)) => Ok((Lit(Str(text)), Reader(rest, ObjectColon, d.stack)))
      else if !ValueAllowed(d.state) then Err(Syntax)
      else
        match ReadLiteral(s)
        case None => Err(Syntax)
        case Some((v, rest)) => Ok((Lit(v), Reader(rest, ValueEnd(d.state), d.stack)))
  }

  /** Decoder.More. */
  predicate More(d: Reader) {
    var s := SkipSpace(d.rest);
    s != [] && s[0] != RBRACKET && s[0] != RBRACE
  }

  // ---- Separators --------------------------------------------------------------------

  /** The separator due before the next value or key. */
  function Lead(s: State): (r: ByteString)
    ensures s.ArrayComma? || s.ObjectComma? ==> r == SEPARATOR
    ensures s.ObjectColon? ==> r == [COLON]
    ensures s.ArrayStart? || s.ObjectStart? || s.TopValue? ==> r == []
  {
    match s
    case ArrayComma => SEPARATOR
    case ObjectComma => SEPARATOR
    case ObjectColon => [COLON]
    case _ => []
  }

  /** The state once that separator is read. */
  function Mid(s: State): State {
    match s
    case ArrayComma => ArrayValue
    case ObjectComma => ObjectKey
    case ObjectColon => ObjectValue
    case _ => s
  }

  predicate StartsToken(t: ByteString) {
    t != [] && !IsSpace(t[0]) && t[0] != COMMA && t[0] != COLON
  }

  /** White space, the separator and white space are skipped. */
  lemma NextSkips(d: Reader, w1: ByteString, w2: ByteString, t: ByteString)
    requires Spaces(w1) && Spaces(w2) && StartsToken(t)
    requires d.rest == w1 + (Lead(d.state) + (w2 + t))
    requires t[0] != RBRACKET && t[0] != RBRACE
    ensures Next(d) == Next(Reader(t, Mid(d.state), d.stack)) && More(d)
  {
    var lead := Lead(d.state);
    SkipSpaceOver(w1, lead + (w2 + t));
    SkipSpaceOver(w2, t);
    assert SkipSpace(t) == t;
    var at := Reader(t, Mid(d.state), d.stack);
    if lead == [] {
      NilLeft(w2 + t);
      NextBySkip(d, at);
    } else {
      NextLead(d, w2 + t);
      NextBySkip(Reader(w2 + t, Mid(d.state), d.stack), at);
    }
  }

  /** Next looks only past the white space. */
  lemma NextBySkip(d1: Reader, d2: Reader)
    requires SkipSpace(d1.rest) == SkipSpace(d2.rest) && d1.state == d2.state && d1.stack == d2.stack
    ensures Next(d1) == Next(d2)
  {
  }

  lemma NextLead(d: Reader, s: ByteString)
    requires Lead(d.state) != [] && SkipSpace(d.rest) == SkipSpace(Lead(d.state) + s)
    ensures Next(d) == Next(Reader(s, Mid(d.state), d.stack)) && More(d)
  {
    var lead := Lead(d.state);
    Drop(lead, s);
    assert (lead + s)[0] == lead[0];
    assert SkipSpace(lead + s) == lead + s;
  }

  /** An end of container is read where one may stand. */
  lemma NextClose(d: Reader, close: ByteString, isObject: bool, r: ByteString)
    requires Spaces(close) && d.stack != []
    requires d.rest == close + ([if isObject then RBRACE else RBRACKET] + r)
    requires if isObject then d.state.ObjectStart? || d.state.ObjectComma? else d.state.ArrayStart? || d.state.ArrayComma?
    ensures !More(d)
    ensures Next(d) == Ok((Close(isObject), Popped(d, r)))
  {
    var t := [if isObject then RBRACE else RBRACKET] + r;
    SkipSpaceOver(close, t);
    assert SkipSpace(t) == t && t[1..] == r;
  }

  /** A token that is no end of container comes after the separator its state calls for. */
  lemma NextNeedsLead(d: Reader)
    requires Next(d).Ok? && More(d)
    ensures var s := SkipSpace(d.rest);
      && (Lead(d.state) == [] ==> StartsToken(s))
      && (Lead(d.state) != [] ==>
            && s[0] == Lead(d.state)[0] && Next(d) == Next(Reader(s[1..], Mid(d.state), d.stack))
            && StartsToken(SkipSpace(s[1..]))
            && SkipSpace(s[1..])[0] != RBRACKET && SkipSpace(s[1..])[0] != RBRACE)
  {
  }

  /** Conversely, every token read is preceded by the separator its state calls for. */
  lemma NextSplits(d: Reader) returns (w1: ByteString, w2: ByteString, t: ByteString)
    requires Next(d).Ok? && More(d)
    ensures Spaces(w1) && Spaces(w2) && StartsToken(t)
    ensures d.rest == w1 + (Lead(d.state) + (w2 + t))
    ensures t[0] != RBRACKET && t[0] != RBRACE
    ensures Next(d) == Next(Reader(t, Mid(d.state), d.stack))
  {
    NextNeedsLead(d);
    w1 := LeadingSpace(d.rest);
    var s := SkipSpace(d.rest);
    if Lead(d.state) == [] {
      w2, t := [], s;
      NilLeft(t);
      NilLeft([] + t);
    } else {
      w2 := LeadingSpace(s[1..]);
      t := SkipSpace(s[1..]);
      LeadAhead(d.state, s);
    }
    NextSkips(d, w1, w2, t);
  }

  lemma LeadAhead(state: State, s: ByteString)
    requires Lead(state) != [] && s != [] && s[0] == Lead(state)[0]
    ensures s == Lead(state) + s[1..]
  {
  }
}
