/** How tokens are spelled, and the lexer against it: it accepts exactly the texts that spell some tokens with white
    space around them, and finds these tokens. */
module Spelling {
  import Ast
  import opened Common
  import opened Lexing

  /** The same letter, or its lower case. */
  predicate SameLetter(c: char, k: char) {
    (c == k && !('a' <= c <= 'z')) || ('A' <= k <= 'Z' && c as int == k as int + 32)
  }

  /** `w` is the keyword `k`, in whatever case. */
  predicate IsKeyword(w: string, k: string) {
    |w| == |k| && forall i :: 0 <= i < |w| ==> SameLetter(w[i], k[i])
  }

  /** The decimal number, most significant digit first. */
  function Decimal(x: string): nat
    requires forall i :: 0 <= i < |x| ==> IsDigit(x[i])
  {
    if x == [] then 0 else DigitValue(x[0]) * Pow10(|x| - 1) + Decimal(x[1..])
  }

  predicate AllDigits(x: string) { x != [] && forall i :: 0 <= i < |x| ==> IsDigit(x[i]) }

  predicate Word(x: string) { x != [] && IsWordStart(x[0]) && forall i :: 0 <= i < |x| ==> IsWordChar(x[i]) }

  const WORDS: set<Token> := {KAnd, KOr, KNot, KNull, KTrue, KFalse, KIs, KIn, KBetween, KCurrentTimestamp}

  /** The keywords of expressions. */
  function KeywordText(t: Token): string
    requires t in WORDS
  {
    match t
    case KAnd => "AND"
    case KOr => "OR"
    case KNot => "NOT"
    case KNull => "NULL"
    case KTrue => "TRUE"
    case KFalse => "FALSE"
    case KIs => "IS"
    case KIn => "IN"
    case KBetween => "BETWEEN"
    case KCurrentTimestamp => "CURRENT_TIMESTAMP"
  }

  /** A name is a word that is no keyword. */
  predicate NoKeyword(x: string) {
    && (forall t :: t in WORDS ==> !IsKeyword(x, KeywordText(t)))
    && !TemporalKeyword(Ast.Upper(x)) && !OtherKeyword(Ast.Upper(x))
  }

  /** The text is a way to write the token. */
  ghost predicate Spells(x: string, t: Token) {
    if t in WORDS then Word(x) && IsKeyword(x, KeywordText(t)) else
    match t
    case KTemporal(w) => Word(x) && w == Ast.Upper(x) && TemporalKeyword(w)
    case KOther(w) => Word(x) && w == Ast.Upper(x) && OtherKeyword(w)
    case Ident(s) => x == s && Word(x) && NoKeyword(x)
    case IntTok(n) => AllDigits(x) && Decimal(x) == n < I64_LIMIT
    case FloatTok(v) => exists a, b :: x == a + "." + b && AllDigits(a) && AllDigits(b) && Valued(v, a, b)
    case StrTok(s) => x == "'" + s + "'" && forall i :: 0 <= i < |s| ==> s[i] != '\''
    case ParamTok(n) => |x| > 1 && x[0] == '$' && AllDigits(x[1..]) && Decimal(x[1..]) == n < USIZE_LIMIT
    case Asterisk => x == "*"
    case Comma => x == ","
    case Semicolon => x == ";"
    case LParen => x == "("
    case RParen => x == ")"
    case Dot => x == "."
    case EqTok => x == "="
    case NeTok => x == "<>"
    case LtTok => x == "<"
    case LeTok => x == "<="
    case GtTok => x == ">"
    case GeTok => x == ">="
    case Plus => x == "+"
    case Minus => x == "-"
    case Slash => x == "/"
    case _ => false
  }

  /** `a.b` as a number. */
  predicate Valued(v: real, a: string, b: string)
    requires AllDigits(a) && AllDigits(b)
  {
    v == Decimal(a) as real + Decimal(b) as real / Pow(|b|)
  }

  /** A power of ten that can be divided by. */
  function Pow(n: nat): (p: real)
    ensures p != 0.0
  {
    Pow10Positive(n);
    Pow10(n) as real
  }

  /** The token can end here: what follows does not make it longer. */
  predicate Ends(t: Token, rest: string) {
    rest != [] ==>
      match t
      case LtTok => rest[0] != '=' && rest[0] != '>'
      case GtTok => rest[0] != '='
      case IntTok(_) => !IsDigit(rest[0]) && !(rest[0] == '.' && |rest| > 1 && IsDigit(rest[1]))
      case FloatTok(_) => !IsDigit(rest[0])
      case ParamTok(_) => !IsDigit(rest[0])
      case Ident(_) => !IsWordChar(rest[0])
      case KTemporal(_) => !IsWordChar(rest[0])
      case KOther(_) => !IsWordChar(rest[0])
      case _ => t in WORDS ==> !IsWordChar(rest[0])
  }

  // ---- characters ----

  /** ASCII digits, letters and the underscore, by their codes. */
  lemma CharactersAre(c: char)
    ensures IsDigit(c) <==> 48 <= c as int <= 57
    ensures IsDigit(c) ==> DigitValue(c) == c as int - 48
    ensures IsWordStart(c) <==> 65 <= c as int <= 90 || 97 <= c as int <= 122 || c as int == 95
    ensures IsWordChar(c) <==> IsWordStart(c) || IsDigit(c)
  {
  }

  // ---- words ----

  lemma UpperIs(w: string, k: string)
    requires forall i :: 0 <= i < |k| ==> !('a' <= k[i] <= 'z')
    ensures Ast.Upper(w) == k <==> IsKeyword(w, k)
  {
    forall i | 0 <= i < |w| && i < |k| ensures Ast.UpperChar(w[i]) == k[i] <==> SameLetter(w[i], k[i]) {
    }
    if Ast.Upper(w) == k {
      forall i | 0 <= i < |w| ensures SameLetter(w[i], k[i]) {
        assert Ast.Upper(w)[i] == k[i];
      }
    }
  }

  predicate WordLike(t: Token) {
    t in WORDS || t.Ident? || t.KTemporal? || t.KOther?
  }

  /** No other token starts like a word. */
  lemma StartsOtherwise(x: string, t: Token)
    requires Spells(x, t) && !WordLike(t)
    ensures x != [] && !IsWordStart(x[0])
  {
    if t.FloatTok? {
      var a, b :| x == a + "." + b && AllDigits(a) && AllDigits(b) && Valued(t.x, a, b);
      assert x[0] == a[0];
    } else if t.StrTok? {
      assert x[0] == '\'';
    }
  }

  lemma KeywordTable(t: Token)
    requires t in WORDS
    ensures KeywordToken(KeywordText(t)) == Some(t)
    ensures forall i :: 0 <= i < |KeywordText(t)| ==> !('a' <= KeywordText(t)[i] <= 'z')
  {
    hide OtherKeyword;
    hide TemporalKeyword;
  }

  lemma OthersApart(u: string)
    ensures TemporalKeyword(u) ==> KeywordToken(u) == Some(KTemporal(u))
    ensures OtherKeyword(u) ==> KeywordToken(u) == Some(KOther(u))
  {
  }

  /** What a token of the table says about the text it was found for. */
  lemma TableBack(u: string)
    ensures match KeywordToken(u)
            case None => (forall t :: t in WORDS ==> u != KeywordText(t)) && !TemporalKeyword(u) && !OtherKeyword(u)
            case Some(t) => if t in WORDS then u == KeywordText(t)
              else (t == KTemporal(u) && TemporalKeyword(u)) || (t == KOther(u) && OtherKeyword(u))
  {
    hide OtherKeyword;
    hide TemporalKeyword;
  }

  /** The token of a word is the one that it spells, and the only one. */
  lemma WordSpells(x: string, t: Token)
    requires Word(x)
    ensures WordToken(x) == t <==> Spells(x, t)
  {
    if Spells(x, t) {
      WordSpelled(x, t);
    }
    TokenSpelled(x);
  }

  lemma WordSpelled(x: string, t: Token)
    requires Word(x) && Spells(x, t)
    ensures WordToken(x) == t
  {
    if !WordLike(t) {
      StartsOtherwise(x, t);
    } else {
      KeywordSpelled(x, t);
    }
  }

  lemma KeywordSpelled(x: string, t: Token)
    requires WordLike(t) && Spells(x, t)
    ensures WordToken(x) == t
  {
    var u := Ast.Upper(x);
    if t in WORDS {
      KeywordTable(t);
      UpperIs(x, KeywordText(t));
    } else {
      OthersApart(u);
      if t.Ident? {
        NameIsNone(x);
      }
    }
    hide KeywordToken;
    hide KeywordText;
    hide Word;
    hide IsKeyword;
    hide NoKeyword;
    hide OtherKeyword;
    hide TemporalKeyword;
  }

  lemma NameIsNone(x: string)
    ensures NoKeyword(x) <==> KeywordToken(Ast.Upper(x)) == None
  {
    var u := Ast.Upper(x);
    TableBack(u);
    OthersApart(u);
    forall t | t in WORDS ensures IsKeyword(x, KeywordText(t)) <==> u == KeywordText(t) {
      KeywordTable(t);
      UpperIs(x, KeywordText(t));
    }
    forall t | t in WORDS ensures KeywordToken(KeywordText(t)) == Some(t) {
      KeywordTable(t);
    }
    hide KeywordToken;
    hide KeywordText;
    hide IsKeyword;
    hide OtherKeyword;
    hide TemporalKeyword;
  }

  lemma TokenSpelled(x: string)
    requires Word(x)
    ensures Spells(x, WordToken(x)) && WordLike(WordToken(x))
  {
    var u := Ast.Upper(x);
    TableBack(u);
    match KeywordToken(u)
    case None => NameIsNone(x);
    case Some(t) =>
      if t in WORDS {
        KeywordTable(t);
        UpperIs(x, KeywordText(t));
      }
      hide KeywordToken;
      hide KeywordText;
      hide IsKeyword;
      hide OtherKeyword;
      hide TemporalKeyword;
  }

  // ---- numbers ----

  lemma {:induction false} DecimalLast(x: string, c: char)
    requires (forall i :: 0 <= i < |x| ==> IsDigit(x[i])) && IsDigit(c)
    ensures Decimal(x + [c]) == 10 * Decimal(x) + DigitValue(c)
  {
    var y := x + [c];
    if x != [] {
      DecimalLast(x[1..], c);
      assert y[1..] == x[1..] + [c];
      assert Pow10(|x|) == 10 * Pow10(|x| - 1);
      Regroup(DigitValue(x[0]), Pow10(|x| - 1));
    } else {
      assert y == [c] && y[1..] == [];
    }
  }

  lemma Regroup(d: nat, p: nat)
    ensures d * (10 * p) == 10 * (d * p)
  {
  }

  lemma {:induction false} DecimalIs(x: string)
    requires forall i :: 0 <= i < |x| ==> IsDigit(x[i])
    ensures Decimal(x) == DigitsValue(x)
  {
    if x != [] {
      var n := |x| - 1;
      DecimalIs(x[..n]);
      DecimalLast(x[..n], x[n]);
      assert x == x[..n] + [x[n]];
    }
  }

  // ---- one token ----

  /** A spelling in front of a text that does not make it longer is what the lexer finds there. */
  lemma TokenFound(x: string, t: Token, rest: string)
    requires Spells(x, t) && Ends(t, rest)
    ensures x != [] && TokenAt(x + rest) == Ok((t, |x|))
  {
    var s := x + rest;
    if WordLike(t) {
      WordFound(x, t, rest);
    } else {
      StartsOtherwise(x, t);
      assert s[0] == x[0];
      match t
      case IntTok(n) => IntFound(x, n, rest);
      case FloatTok(v) => FloatFound(x, v, rest);
      case StrTok(str) => StringFound(x, str, rest);
      case ParamTok(n) => ParamFound(x, n, rest);
      case _ => MarkFound(x, t, rest);
    }
  }

  lemma WordFound(x: string, t: Token, rest: string)
    requires Spells(x, t) && WordLike(t) && Ends(t, rest)
    ensures x != [] && TokenAt(x + rest) == Ok((t, |x|))
  {
    var s := x + rest;
    KeywordSpelled(x, t);
    hide KeywordToken;
    hide NoKeyword;
    hide IsKeyword;
    assert Word(x) && (rest != [] ==> !IsWordChar(rest[0]));
    assert s[0] == x[0] && IsWordStart(s[0]);
    RunLenIs(IsWordChar, s, |x|);
    assert s[..|x|] == x;
    TokenClass(s);
    hide TokenAt;
  }

  lemma MarkFound(x: string, t: Token, rest: string)
    requires Spells(x, t) && Ends(t, rest)
    requires !WordLike(t) && !t.IntTok? && !t.FloatTok? && !t.StrTok? && !t.ParamTok?
    ensures x != [] && TokenAt(x + rest) == Ok((t, |x|))
  {
    var s := x + rest;
    hide NumberAt;
    hide StringAt;
    hide ParameterAt;
    hide WordAt;
    assert s[0] == x[0];
    if |x| == 2 {
      assert s[1] == x[1];
    } else {
      assert rest != [] ==> s[1] == rest[0];
    }
  }

  lemma IntFound(x: string, n: nat, rest: string)
    requires AllDigits(x) && Decimal(x) == n < I64_LIMIT && Ends(IntTok(n), rest)
    ensures TokenAt(x + rest) == Ok((IntTok(n), |x|))
  {
    var s := x + rest;
    assert s[0] == x[0];
    TokenClass(s);
    RunLenIs(IsDigit, s, |x|);
    assert s[..|x|] == x;
    DecimalIs(x);
    hide TokenAt;
    hide RunLen;
    hide DigitsValue;
    hide Decimal;
    assert rest != [] ==> s[|x|] == rest[0] && (|rest| > 1 ==> s[|x| + 1] == rest[1]);
  }

  lemma FloatFound(x: string, v: real, rest: string)
    requires Spells(x, FloatTok(v)) && Ends(FloatTok(v), rest)
    ensures TokenAt(x + rest) == Ok((FloatTok(v), |x|))
  {
    hide TokenAt;
    hide Valued;
    hide AllDigits;
    hide FloatToken;
    var a, b :| x == a + "." + b && AllDigits(a) && AllDigits(b) && Valued(v, a, b);
    Regrouped(a, b, rest);
    FloatIs(v, a, b);
    FloatThere(a, b, rest);
  }

  lemma Regrouped(a: string, b: string, rest: string)
    ensures a + "." + b + rest == a + ("." + (b + rest)) && |a + "." + b| == |a| + 1 + |b|
  {
  }

  lemma FloatThere(a: string, b: string, rest: string)
    requires AllDigits(a) && AllDigits(b) && (rest != [] ==> !IsDigit(rest[0]))
    ensures TokenAt(a + ("." + (b + rest))) == Ok((FloatToken(a, b), |a| + 1 + |b|))
  {
    var s := a + ("." + (b + rest));
    FloatRuns(a, b, rest);
    assert s[0] == a[0];
    TokenClass(s);
    hide TokenAt;
    hide RunLen;
    hide FloatToken;
  }

  lemma FloatRuns(a: string, b: string, rest: string)
    requires AllDigits(a) && AllDigits(b) && (rest != [] ==> !IsDigit(rest[0]))
    ensures var s := a + ("." + (b + rest));
      && RunLen(IsDigit, s) == |a| && s[..|a|] == a && s[|a|] == '.' && IsDigit(s[|a| + 1])
      && RunLen(IsDigit, s[|a| + 1..]) == |b| && s[|a| + 1..|a| + 1 + |b|] == b
  {
    var s := a + ("." + (b + rest));
    assert s[..|a|] == a && s[|a| + 1..] == b + rest;
    RunLenIs(IsDigit, s, |a|);
    RunLenIs(IsDigit, s[|a| + 1..], |b|);
    assert s[|a| + 1] == b[0];
    hide RunLen;
  }

  lemma FloatIs(v: real, a: string, b: string)
    requires AllDigits(a) && AllDigits(b)
    ensures FloatToken(a, b) == FloatTok(v) <==> Valued(v, a, b)
  {
    DecimalIs(a);
    DecimalIs(b);
    Pow10Positive(|b|);
    hide Decimal;
    hide DigitsValue;
  }

  lemma StringFound(x: string, str: string, rest: string)
    requires Spells(x, StrTok(str))
    ensures TokenAt(x + rest) == Ok((StrTok(str), |x|))
  {
    var s := x + rest;
    assert s[0] == '\'' && s[1..] == str + ("'" + rest);
    TokenClass(s);
    hide TokenAt;
    RunLenIs(NotQuote, s[1..], |str|);
    hide RunLen;
    assert s[1..|str| + 1] == str;
  }

  lemma ParamFound(x: string, n: nat, rest: string)
    requires Spells(x, ParamTok(n)) && Ends(ParamTok(n), rest)
    ensures TokenAt(x + rest) == Ok((ParamTok(n), |x|))
  {
    var s, d := x + rest, x[1..];
    assert s[0] == '$' && s[1..] == d + rest;
    TokenClass(s);
    hide TokenAt;
    RunLenIs(IsDigit, s[1..], |d|);
    DecimalIs(d);
    hide RunLen;
    hide DigitsValue;
    hide Decimal;
    assert s[1..1 + |d|] == d;
  }

  /** And what the lexer finds is always a spelling of its token, as long as it can be. */
  lemma FoundSpelled(s: string)
    requires s != [] && TokenAt(s).Ok?
    ensures var (t, n) := TokenAt(s).value; Leads(s, n, t)
  {
    TokenClass(s);
    if s[0] == '\'' {
      FoundString(s);
    } else if s[0] == '$' {
      FoundParam(s);
    } else if IsDigit(s[0]) {
      FoundNumber(s);
    } else if IsWordStart(s[0]) {
      FoundWord(s);
    } else {
      FoundMark(s);
    }
  }

  lemma FoundMark(s: string)
    requires s != [] && s[0] != '\'' && s[0] != '$' && !IsDigit(s[0]) && !IsWordStart(s[0]) && TokenAt(s).Ok?
    ensures var (t, n) := TokenAt(s).value; Leads(s, n, t)
  {
    hide NumberAt;
    hide StringAt;
    hide ParameterAt;
    hide WordAt;
    var (t, n) := TokenAt(s).value;
    assert n == 1 ==> s[..n] == [s[0]];
    assert n == 2 ==> s[..n] == [s[0], s[1]];
    assert |s| > n ==> s[n..][0] == s[n];
  }

  lemma FoundWord(s: string)
    requires s != [] && IsWordStart(s[0])
    ensures TokenAt(s).Ok?
    ensures var (t, n) := TokenAt(s).value; Leads(s, n, t)
  {
    TokenClass(s);
    hide TokenAt;
    var n := RunLen(IsWordChar, s);
    assert n > 0 && s[..n][0] == s[0];
    TokenSpelled(s[..n]);
    hide WordToken;
    assert |s| > n ==> s[n..][0] == s[n];
  }

  lemma FoundString(s: string)
    requires s != [] && s[0] == '\'' && TokenAt(s).Ok?
    ensures var (t, n) := TokenAt(s).value; Leads(s, n, t)
  {
    TokenClass(s);
    hide TokenAt;
    var n := RunLen(NotQuote, s[1..]);
    var str := s[1..n + 1];
    assert s[1..][n] == s[n + 1];
    forall i | 0 <= i < |str| ensures str[i] != '\'' {
      assert NotQuote(s[1..][i]);
    }
    assert s[..n + 2] == "'" + str + "'";
  }

  lemma FoundParam(s: string)
    requires s != [] && s[0] == '$' && TokenAt(s).Ok?
    ensures var (t, n) := TokenAt(s).value; Leads(s, n, t)
  {
    TokenClass(s);
    hide TokenAt;
    var n := RunLen(IsDigit, s[1..]);
    var d := s[1..1 + n];
    forall i | 0 <= i < |d| ensures IsDigit(d[i]) {
      assert IsDigit(s[1..][i]);
    }
    DecimalIs(d);
    hide Decimal;
    hide DigitsValue;
    assert s[..1 + n][1..] == d;
    assert |s| > 1 + n ==> s[1 + n..][0] == s[1..][n];
  }

  lemma FoundNumber(s: string)
    requires s != [] && IsDigit(s[0]) && TokenAt(s).Ok?
    ensures var (t, n) := TokenAt(s).value; Leads(s, n, t)
  {
    TokenClass(s);
    hide TokenAt;
    hide Leads;
    hide IsDigit;
    if HasFraction(s) {
      var a, b, rest := FloatSplit(s);
      LeadsFloat(a, b, rest);
    } else {
      var a, rest := IntSplit(s);
      LeadsInt(a, rest);
    }
  }

  predicate HasFraction(s: string) {
    var n := RunLen(IsDigit, s);
    n + 1 < |s| && s[n] == '.' && IsDigit(s[n + 1])
  }

  lemma DigitRun(s: string)
    requires s != [] && IsDigit(s[0])
    ensures var n := RunLen(IsDigit, s);
      n > 0 && AllDigits(s[..n]) && s == s[..n] + s[n..] && (s[n..] != [] ==> !IsDigit(s[n..][0]))
  {
  }

  lemma IntSplit(s: string) returns (a: string, rest: string)
    requires s != [] && IsDigit(s[0]) && !HasFraction(s)
    ensures AllDigits(a) && s == a + rest && NumberAt(s) == Sized(IntToken(a), |a|)
    ensures rest != [] ==> !IsDigit(rest[0]) && !(rest[0] == '.' && |rest| > 1 && IsDigit(rest[1]))
  {
    DigitRun(s);
    var n := RunLen(IsDigit, s);
    a, rest := s[..n], s[n..];
    hide IntToken;
    hide RunLen;
    assert |s| > n + 1 ==> rest[1] == s[n + 1];
  }

  lemma LeadsInt(a: string, rest: string)
    requires AllDigits(a) && IntToken(a).Ok?
    requires rest != [] ==> !IsDigit(rest[0]) && !(rest[0] == '.' && |rest| > 1 && IsDigit(rest[1]))
    ensures Leads(a + rest, |a|, IntToken(a).value)
  {
    DecimalIs(a);
    hide Decimal;
    hide DigitsValue;
    assert (a + rest)[..|a|] == a && (a + rest)[|a|..] == rest;
  }

  lemma FloatSplit(s: string) returns (a: string, b: string, rest: string)
    requires s != [] && IsDigit(s[0]) && HasFraction(s)
    ensures AllDigits(a) && AllDigits(b) && s == a + ("." + (b + rest)) && (rest != [] ==> !IsDigit(rest[0]))
    ensures NumberAt(s) == Ok((FloatToken(a, b), |a| + 1 + |b|))
  {
    DigitRun(s);
    var n := RunLen(IsDigit, s);
    var after := s[n + 1..];
    assert after[0] == s[n + 1];
    DigitRun(after);
    var m := RunLen(IsDigit, after);
    a, b, rest := s[..n], after[..m], after[m..];
    hide RunLen;
    hide FloatToken;
    assert s[n + 1..n + 1 + m] == b;
    assert s[n..] == "." + after;
  }

  lemma LeadsFloat(a: string, b: string, rest: string)
    requires AllDigits(a) && AllDigits(b) && (rest != [] ==> !IsDigit(rest[0]))
    ensures Leads(a + ("." + (b + rest)), |a| + 1 + |b|, FloatToken(a, b))
  {
    var s, x := a + ("." + (b + rest)), a + "." + b;
    FloatIs(FloatToken(a, b).x, a, b);
    assert s[..|x|] == x && s[|x|..] == rest;
    hide Valued;
    assert FloatToken(a, b).FloatTok?;
    hide FloatToken;
    hide AllDigits;
  }

  // ---- whole texts ----

  /** `x` spells the tokens one after the other, each as long as it can be, with white space around them. */
  ghost predicate Spelled(x: string, ts: seq<Token>)
    decreases |x|
  {
    if x == [] then ts == []
    else if IsSpace(x[0]) then Spelled(x[1..], ts)
    else ts != [] && exists n :: 0 < n <= |x| && Leads(x, n, ts[0]) && Spelled(x[n..], ts[1..])
  }

  /** The first `n` characters spell the token, and it ends there. */
  ghost predicate Leads(x: string, n: nat, t: Token)
    requires n <= |x|
  {
    Spells(x[..n], t) && Ends(t, x[n..])
  }

  lemma LeadsExactly(x: string, n: nat, t: Token)
    requires x != [] && n <= |x|
    ensures Leads(x, n, t) <==> TokenAt(x) == Ok((t, n))
  {
    if Leads(x, n, t) {
      TokenFound(x[..n], t, x[n..]);
      assert x == x[..n] + x[n..];
    } else if TokenAt(x).Ok? {
      FoundSpelled(x);
    }
  }

  /** The lexer accepts a text exactly when it spells tokens, and these are what it gives. */
  lemma {:induction false} LexesExactly(x: string, ts: seq<Token>)
    ensures Lex(x) == Ok(ts) <==> Spelled(x, ts)
    decreases |x|
  {
    hide TokenAt;
    hide Leads;
    if x != [] {
      if IsSpace(x[0]) {
        LexesExactly(x[1..], ts);
      } else if ts != [] {
        forall n: nat | 0 < n <= |x| ensures Leads(x, n, ts[0]) <==> TokenAt(x) == Ok((ts[0], n)) {
          LeadsExactly(x, n, ts[0]);
        }
        if TokenAt(x).Ok? {
          var (t, n) := TokenAt(x).value;
          LexesExactly(x[n..], ts[1..]);
          assert [ts[0]] + ts[1..] == ts;
        }
      }
    }
  }
}
