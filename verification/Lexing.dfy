/** From characters to tokens. Floating-point text keeps its exact decimal value. */
module Lexing {
  import Ast
  import opened Common

  datatype Token =
    | KAnd | KOr | KNot | KNull | KTrue | KFalse | KIs | KIn | KBetween | KCurrentTimestamp
    | KTemporal(word: string)
    | KOther(word: string)
    | Ident(s: string)
    | IntTok(n: nat)
    | FloatTok(x: real)
    | StrTok(s: string)
    | Asterisk | Comma | Semicolon | LParen | RParen | Dot
    | EqTok | NeTok | LtTok | LeTok | GtTok | GeTok
    | Plus | Minus | Slash
    | ParamTok(n: nat)

  const I64_LIMIT := 0x8000_0000_0000_0000
  const USIZE_LIMIT := 0x1_0000_0000_0000_0000

  predicate IsDigit(c: char) { '0' <= c <= '9' }

  predicate IsWordStart(c: char) { 'a' <= c <= 'z' || 'A' <= c <= 'Z' || c == '_' }

  predicate IsWordChar(c: char) { IsWordStart(c) || IsDigit(c) }

  predicate NotQuote(c: char) { c != '\'' }

  /** Unicode white space. */
  predicate IsSpace(c: char) {
    var n := c as int;
    || 9 <= n <= 13 || n == 0x20 || n == 0x85 || n == 0xA0 || n == 0x1680 || 0x2000 <= n <= 0x200A
    || n == 0x2028 || n == 0x2029 || n == 0x202F || n == 0x205F || n == 0x3000
  }

  /** The length of the longest prefix whose characters all satisfy `p`. */
  function RunLen(p: char -> bool, s: string): (n: nat)
    ensures n <= |s| && (forall i :: 0 <= i < n ==> p(s[i])) && (n < |s| ==> !p(s[n]))
  {
    if s == [] || !p(s[0]) then 0 else 1 + RunLen(p, s[1..])
  }

  lemma {:induction false} RunLenIs(p: char -> bool, s: string, n: nat)
    requires n <= |s| && (forall i :: 0 <= i < n ==> p(s[i])) && (n < |s| ==> !p(s[n]))
    ensures RunLen(p, s) == n
  {
    if n > 0 {
      RunLenIs(p, s[1..], n - 1);
    }
  }

  function DigitValue(c: char): nat
    requires IsDigit(c)
  {
    c as int - '0' as int
  }

  function DigitsValue(s: string): nat
    requires forall i :: 0 <= i < |s| ==> IsDigit(s[i])
  {
    if s == [] then 0 else 10 * DigitsValue(s[..|s| - 1]) + DigitValue(s[|s| - 1])
  }

  function Pow10(n: nat): nat {
    if n == 0 then 1 else 10 * Pow10(n - 1)
  }

  lemma Pow10Positive(n: nat)
    ensures Pow10(n) > 0
  {
  }

  /** The keywords that never occur in an expression, by their length. */
  predicate OtherKeyword(u: string) {
    match |u|
    case 2 => u in ["DO", "NO", "ON", "AS", "BY", "IF"]
    case 3 => u in ["SET", "END", "INT", "ASC", "KEY"]
    case 4 => u in ["FROM", "INTO", "DROP", "COPY", "JOIN", "LEFT", "DESC", "CHAR"]
    case 5 => u in ["WHERE", "BEGIN", "TABLE", "FLOAT", "ALTER", "STDIN", "CHECK", "INNER", "GROUP", "ORDER",
      "LIMIT", "INDEX"]
    case 6 => u in ["SELECT", "INSERT", "VALUES", "DELETE", "UPDATE", "COMMIT", "CREATE", "DOUBLE", "VACUUM",
      "ACTION", "HAVING", "EXISTS"]
    case 7 => u in ["INTEGER", "VARCHAR", "CASCADE", "ANALYZE", "NOTHING", "FOREIGN", "DEFAULT", "PRIMARY"]
    case 8 => u in ["ROLLBACK", "TRUNCATE", "RESTRICT", "SEQUENCE", "CONFLICT", "EXCLUDED", "DISTINCT"]
    case 10 => u in ["CHECKPOINT", "CONSTRAINT", "REFERENCES"]
    case _ => false
  }

  predicate TemporalKeyword(u: string) {
    u in ["TIMESTAMP", "DATE", "TIME", "INTERVAL"]
  }

  function KeywordToken(u: string): Option<Token> {
    if u == "AND" then Some(KAnd)
    else if u == "OR" then Some(KOr)
    else if u == "NOT" then Some(KNot)
    else if u == "NULL" then Some(KNull)
    else if u == "TRUE" then Some(KTrue)
    else if u == "FALSE" then Some(KFalse)
    else if u == "IS" then Some(KIs)
    else if u == "IN" then Some(KIn)
    else if u == "BETWEEN" then Some(KBetween)
    else if u == "CURRENT_TIMESTAMP" then Some(KCurrentTimestamp)
    else if TemporalKeyword(u) then Some(KTemporal(u))
    else if OtherKeyword(u) then Some(KOther(u))
    else None
  }

  /** Keywords are matched without regard to case. */
  function WordToken(w: string): Token {
    match KeywordToken(Ast.Upper(w)) case Some(t) => t case None => Ident(w)
  }

  function IntToken(digits: string): Result<Token>
    requires forall i :: 0 <= i < |digits| ==> IsDigit(digits[i])
  {
    if DigitsValue(digits) < I64_LIMIT then Ok(IntTok(DigitsValue(digits))) else Err
  }

  function ParamToken(digits: string): Result<Token>
    requires forall i :: 0 <= i < |digits| ==> IsDigit(digits[i])
  {
    if digits != [] && DigitsValue(digits) < USIZE_LIMIT then Ok(ParamTok(DigitsValue(digits))) else Err
  }

  function FloatToken(whole: string, part: string): Token
    requires forall i :: 0 <= i < |whole| ==> IsDigit(whole[i])
    requires forall i :: 0 <= i < |part| ==> IsDigit(part[i])
  {
    Pow10Positive(|part|);
    FloatTok(DigitsValue(whole) as real + DigitsValue(part) as real / Pow10(|part|) as real)
  }

  function Sized(t: Result<Token>, n: nat): Result<(Token, nat)> {
    match t case Err => Err case Ok(tok) => Ok((tok, n))
  }

  /** An integer, or a float when a point and at least one more digit follow. */
  function NumberAt(s: string): (r: Result<(Token, nat)>)
    requires s != [] && IsDigit(s[0])
    ensures r.Ok? ==> 0 < r.value.1 <= |s|
  {
    var n := RunLen(IsDigit, s);
    if n + 1 < |s| && s[n] == '.' && IsDigit(s[n + 1]) then
      var m := RunLen(IsDigit, s[n + 1..]);
      Ok((FloatToken(s[..n], s[n + 1..n + 1 + m]), n + 1 + m))
    else Sized(IntToken(s[..n]), n)
  }

  /** Everything up to the next quote; two quotes in a row are two strings, not an escape. */
  function StringAt(s: string): (r: Result<(Token, nat)>)
    requires s != [] && s[0] == '\''
    ensures r.Ok? ==> 0 < r.value.1 <= |s|
  {
    var n := RunLen(NotQuote, s[1..]);
    if n == |s| - 1 then Err else Ok((StrTok(s[1..n + 1]), n + 2))
  }

  function ParameterAt(s: string): (r: Result<(Token, nat)>)
    requires s != [] && s[0] == '$'
    ensures r.Ok? ==> 0 < r.value.1 <= |s|
  {
    var n := RunLen(IsDigit, s[1..]);
    Sized(ParamToken(s[1..1 + n]), 1 + n)
  }

  function WordAt(s: string): (r: Result<(Token, nat)>)
    requires s != [] && IsWordStart(s[0])
    ensures r.Ok? ==> 0 < r.value.1 <= |s|
  {
    var n := RunLen(IsWordChar, s);
    Ok((WordToken(s[..n]), n))
  }

  /** The token at the front of `s` and its length. */
  function TokenAt(s: string): (r: Result<(Token, nat)>)
    requires s != []
    ensures r.Ok? ==> 0 < r.value.1 <= |s|
  {
    var c := s[0];
    var second := if |s| > 1 then s[1] else ' ';
    if c == '*' then Ok((Asterisk, 1))
    else if c == ',' then Ok((Comma, 1))
    else if c == '.' then Ok((Dot, 1))
    else if c == ';' then Ok((Semicolon, 1))
    else if c == '(' then Ok((LParen, 1))
    else if c == ')' then Ok((RParen, 1))
    else if c == '+' then Ok((Plus, 1))
    else if c == '-' then Ok((Minus, 1))
    else if c == '/' then Ok((Slash, 1))
    else if c == '=' then Ok((EqTok, 1))
    else if c == '<' then
      if second == '=' then Ok((LeTok, 2)) else if second == '>' then Ok((NeTok, 2)) else Ok((LtTok, 1))
    else if c == '>' then if second == '=' then Ok((GeTok, 2)) else Ok((GtTok, 1))
    else if c == '$' then ParameterAt(s)
    else if c == '\'' then StringAt(s)
    else if IsDigit(c) then NumberAt(s)
    else if IsWordStart(c) then WordAt(s)
    else Err
  }

  lemma TokenClass(s: string)
    requires s != []
    ensures s[0] == '\'' ==> TokenAt(s) == StringAt(s)
    ensures s[0] == '$' ==> TokenAt(s) == ParameterAt(s)
    ensures IsDigit(s[0]) ==> TokenAt(s) == NumberAt(s)
    ensures IsWordStart(s[0]) ==> TokenAt(s) == WordAt(s)
  {
    hide NumberAt;
    hide StringAt;
    hide ParameterAt;
    hide WordAt;
  }

  function Prepend(t: Token, rest: Result<seq<Token>>): Result<seq<Token>> {
    match rest case Err => Err case Ok(ts) => Ok([t] + ts)
  }

  /** All tokens of a text. */
  function Lex(s: string): Result<seq<Token>>
    decreases |s|
  {
    if s == [] then Ok([])
    else if IsSpace(s[0]) then Lex(s[1..])
    else
      match TokenAt(s)
      case Err => Err
      case Ok((t, n)) => Prepend(t, Lex(s[n..]))
  }

  // ---- the lexer ----

  function Joined(first: seq<Token>, rest: Result<seq<Token>>): Result<seq<Token>> {
    match rest case Err => Err case Ok(ts) => Ok(first + ts)
  }

  /** Cursor `to` is `n` characters past `was`, and the token is the one found there. */
  ghost predicate Took(found: Result<(Token, nat)>, was: nat, r: Result<Token>, to: nat) {
    match found
    case Err => r == Err
    case Ok((t, n)) => r == Ok(t) && to == was + n
  }

  class Lexer {
    const input: string
    var pos: nat

    ghost predicate Valid()
      reads this
    {
      pos <= |input|
    }

    constructor (src: string)
      ensures Valid() && input == src && pos == 0
    {
      input, pos := src, 0;
    }

    method Bump() returns (c: char)
      requires pos < |input|
      modifies this`pos
      ensures c == input[old(pos)] && pos == old(pos) + 1
    {
      c := input[pos];
      pos := pos + 1;
    }

    /** Collects characters for as long as they satisfy `p`. */
    method TakeWhile(p: char -> bool) returns (s: string)
      requires Valid()
      modifies this`pos
      ensures Valid() && pos == old(pos) + RunLen(p, input[old(pos)..]) && s == input[old(pos)..pos]
    {
      s := [];
      while pos < |input| && p(input[pos])
        invariant old(pos) <= pos <= |input| && s == input[old(pos)..pos]
        invariant forall i :: old(pos) <= i < pos ==> p(input[i])
      {
        var c := Bump();
        s := s + [c];
      }
      RunLenIs(p, input[old(pos)..], pos - old(pos));
    }

    method SkipWs()
      requires Valid()
      modifies this`pos
      ensures Valid() && old(pos) <= pos && Lex(input[pos..]) == Lex(input[old(pos)..])
      ensures pos < |input| ==> !IsSpace(input[pos])
    {
      while pos < |input| && IsSpace(input[pos])
        invariant old(pos) <= pos <= |input| && Lex(input[pos..]) == Lex(input[old(pos)..])
      {
        assert input[pos..][1..] == input[pos + 1..];
        pos := pos + 1;
      }
    }

    method ReadString() returns (r: Result<Token>)
      requires Valid() && pos < |input| && input[pos] == '\''
      modifies this`pos
      ensures Valid() && Took(StringAt(input[old(pos)..]), old(pos), r, pos)
    {
      ghost var was := pos;
      var quote := Bump();
      var s := TakeWhile(NotQuote);
      assert input[was..][1..] == input[was + 1..];
      if pos == |input| {
        return Err;
      }
      assert input[was..][1..|s| + 1] == s;
      pos := pos + 1;
      r := Ok(StrTok(s));
    }

    method ReadInteger() returns (r: Result<Token>)
      requires Valid() && pos < |input| && IsDigit(input[pos])
      modifies this`pos
      ensures Valid() && Took(NumberAt(input[old(pos)..]), old(pos), r, pos)
    {
      hide DigitsValue;
      hide RunLen;
      ghost var was := pos;
      var whole := TakeWhile(IsDigit);
      assert input[was..][..|whole|] == whole;
      if pos < |input| && input[pos] == '.' {
        if pos + 1 < |input| && IsDigit(input[pos + 1]) {
          var point := Bump();
          var part := TakeWhile(IsDigit);
          assert input[was..][|whole| + 1..] == input[was + |whole| + 1..];
          assert input[was..][|whole| + 1..|whole| + 1 + |part|] == part;
          return Ok(FloatToken(whole, part));
        }
      }
      r := IntToken(whole);
    }

    method NextToken() returns (r: Result<Token>)
      requires Valid() && pos < |input|
      modifies this`pos
      ensures Valid() && Took(TokenAt(input[old(pos)..]), old(pos), r, pos)
    {
      hide NumberAt;
      hide StringAt;
      hide ParamToken;
      hide WordToken;
      hide TokenAt;
      var c := input[pos];
      TokenClass(input[pos..]);
      if c == '\'' {
        r := ReadString();
      } else if IsDigit(c) {
        r := ReadInteger();
      } else if IsWordStart(c) {
        r := ReadWord();
      } else if c == '$' {
        r := ReadParam();
      } else {
        r := Punctuation(c);
      }
    }

    method ReadWord() returns (r: Result<Token>)
      requires Valid() && pos < |input| && IsWordStart(input[pos])
      modifies this`pos
      ensures Valid() && Took(WordAt(input[old(pos)..]), old(pos), r, pos)
    {
      ghost var was := pos;
      var w := TakeWhile(IsWordChar);
      assert input[was..][..|w|] == w;
      r := Ok(WordToken(w));
    }

    method ReadParam() returns (r: Result<Token>)
      requires Valid() && pos < |input| && input[pos] == '$'
      modifies this`pos
      ensures Valid() && Took(ParameterAt(input[old(pos)..]), old(pos), r, pos)
    {
      ghost var was := pos;
      var dollar := Bump();
      var digits := TakeWhile(IsDigit);
      assert input[was..][1..] == input[was + 1..] && input[was..][1..1 + |digits|] == digits;
      r := ParamToken(digits);
    }

    method Punctuation(c: char) returns (r: Result<Token>)
      requires Valid() && pos < |input| && c == input[pos]
      requires c != '\'' && c != '$' && !IsDigit(c) && !IsWordStart(c)
      modifies this`pos
      ensures Valid() && Took(TokenAt(input[old(pos)..]), old(pos), r, pos)
    {
      match c {
        case '*' => r := Ok(Asterisk);
        case ',' => r := Ok(Comma);
        case '.' => r := Ok(Dot);
        case ';' => r := Ok(Semicolon);
        case '(' => r := Ok(LParen);
        case ')' => r := Ok(RParen);
        case '+' => r := Ok(Plus);
        case '-' => r := Ok(Minus);
        case '/' => r := Ok(Slash);
        case '=' => r := Ok(EqTok);
        case '<' =>
          r := Ok(LtTok);
          if pos + 1 < |input| && input[pos + 1] == '=' {
            pos, r := pos + 1, Ok(LeTok);
          } else if pos + 1 < |input| && input[pos + 1] == '>' {
            pos, r := pos + 1, Ok(NeTok);
          }
        case '>' =>
          r := Ok(GtTok);
          if pos + 1 < |input| && input[pos + 1] == '=' {
            pos, r := pos + 1, Ok(GeTok);
          }
        case _ => return Err;
      }
      pos := pos + 1;
    }

    method Tokenize() returns (r: Result<seq<Token>>)
      requires Valid()
      modifies this`pos
      ensures Valid() && r == Lex(input[old(pos)..])
    {
      hide TokenAt;
      var out: seq<Token> := [];
      ghost var all := Lex(input[pos..]);
      JoinedNone(all);
      while true
        invariant Valid() && all == Joined(out, Lex(input[pos..]))
        decreases |input| - pos
      {
        SkipWs();
        if pos == |input| {
          assert out + [] == out;
          return Ok(out);
        }
        ghost var at := pos;
        var t := NextToken();
        match t {
          case Err => return Err;
          case Ok(tok) =>
            LexStep(input[at..], tok, pos - at);
            assert input[at..][pos - at..] == input[pos..];
            JoinedMore(out, tok, Lex(input[pos..]));
            out := out + [tok];
        }
      }
    }
  }

  lemma LexStep(s: string, t: Token, n: nat)
    requires s != [] && !IsSpace(s[0]) && TokenAt(s) == Ok((t, n))
    ensures Lex(s) == Prepend(t, Lex(s[n..]))
  {
  }

  lemma JoinedNone(rest: Result<seq<Token>>)
    ensures Joined([], rest) == rest
  {
    if rest.Ok? {
      assert [] + rest.value == rest.value;
    }
  }

  lemma JoinedMore(first: seq<Token>, t: Token, rest: Result<seq<Token>>)
    ensures Joined(first, Prepend(t, rest)) == Joined(first + [t], rest)
  {
    if rest.Ok? {
      assert first + ([t] + rest.value) == (first + [t]) + rest.value;
    }
  }
}
