/** The value trees strict decoding produces and the characters of the JSON grammar. */
module Values {
  import opened Utf8

  /** A Go string that passed the decoder is valid UTF-8, so it is kept as its scalars.
      Numbers keep their lexeme. */
  datatype Value =
    | Null
    | Bool(b: bool)
    | Number(lexeme: ByteString)
    | Str(text: Text)
    | Arr(elems: seq<Value>)
    | Obj(members: map<Text, Value>)

  const TAB: Byte := 0x09
  const LF: Byte := 0x0A
  const CR: Byte := 0x0D
  const SPACE: Byte := 0x20
  const QUOTE: Byte := 0x22
  const PLUS: Byte := 0x2B
  const COMMA: Byte := 0x2C
  const MINUS: Byte := 0x2D
  const DOT: Byte := 0x2E
  const SLASH: Byte := 0x2F
  const ZERO: Byte := 0x30
  const COLON: Byte := 0x3A
  const LBRACKET: Byte := 0x5B
  const BACKSLASH: Byte := 0x5C
  const RBRACKET: Byte := 0x5D
  const LOWER_U: Byte := 0x75
  const LBRACE: Byte := 0x7B
  const RBRACE: Byte := 0x7D

  const SEPARATOR: ByteString := [COMMA]

  const NULL: ByteString := [0x6E, 0x75, 0x6C, 0x6C]
  const TRUE: ByteString := [0x74, 0x72, 0x75, 0x65]
  const FALSE: ByteString := [0x66, 0x61, 0x6C, 0x73, 0x65]

  /** The bytes of an ASCII string. */
  function Ascii(s: string): (r: ByteString)
    requires forall i | 0 <= i < |s| :: s[i] < '\U{80}'
    ensures |r| == |s| && forall i | 0 <= i < |s| :: r[i] == s[i] as int
  {
    seq(|s|, i requires 0 <= i < |s| => s[i] as int)
  }

  /** The characters and words of sections 2 and 3 of RFC 8259 are the ones it writes. */
  lemma Characters()
    ensures [LBRACKET, LBRACE, RBRACKET, RBRACE, COLON, COMMA] == Ascii("[{]}:,")
    ensures [QUOTE, BACKSLASH, SLASH, LOWER_U] == Ascii("\"\\/u")
    ensures [PLUS, MINUS, DOT, ZERO] == Ascii("+-.0")
    ensures [SPACE, TAB, LF, CR] == Ascii(" \t\n\r")
    ensures SEPARATOR == Ascii(",")
    ensures NULL == Ascii("null") && TRUE == Ascii("true") && FALSE == Ascii("false")
  {
  }

  /** Containers nest at most n deep; a scalar has depth zero. */
  predicate DepthAtMost(v: Value, n: int) {
    match v
    case Arr(es) => n > 0 && forall e | e in es :: DepthAtMost(e, n - 1)
    case Obj(m) => n > 0 && forall k | k in m :: DepthAtMost(m[k], n - 1)
    case _ => true
  }
}
