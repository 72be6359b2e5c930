/** The language of the parser: the texts it accepts are exactly the layouts of well-formed statements, and each is read
    as the statement it lays out. */
module SqlLanguage {
  import opened Machine
  import opened Texts
  import opened SqlGrammar
  import opened SqlRoundTrip
  import opened SqlLayout

  // ---------------------------------------------------------------- tokens that can be laid out

  predicate IsCapitals(w: string) {
    w != "" && forall i :: 0 <= i < |w| ==> 'A' <= w[i] <= 'Z'
  }

  predicate IsToken(t: Token) {
    match t
    case Verb(w) => IsCapitals(w)
    case Word(w) => IsCapitals(w)
    case Name(id) => IsIdentifier(id)
    case Sign(c) => c == '=' || c == '(' || c == ')' || c == ','
    case Operator(_) => true
    case Constant(v) => IsValue(v)
  }

  /** A word in either case consists of letters. */
  lemma CaselessLetters(piece: string, w: string)
    requires IsCapitals(w) && Upper(piece) == Upper(w)
    ensures |piece| == |w| && forall i :: 0 <= i < |piece| ==> IsAlpha(piece[i])
  {
    UpperAt(piece);
    UpperAt(w);
    forall i | 0 <= i < |piece| ensures IsAlpha(piece[i]) {
      assert ToUpper(piece[i]) == Upper(piece)[i] == Upper(w)[i] == ToUpper(w[i]);
    }
    hide Upper;
  }

  predicate IsCompact(piece: string) {
    piece != "" && !IsSpace(piece[0]) && !IsSpace(piece[|piece| - 1])
  }

  lemma IntegerIsCompact(n: i64, piece: string)
    requires SpellsValue(piece, Integer(n))
    ensures IsCompact(piece) && (IsDigit(piece[0]) || piece[0] == '-' || piece[0] == '+')
    ensures forall j :: (if IsDigit(piece[0]) then 0 else 1) <= j < |piece| ==> IsDigit(piece[j])
    ensures !IsDigit(piece[0]) ==> |piece| > 1
  {
    hide Digits;
    var signed := piece[0] == '+' || piece[0] == '-';
    var digits := if signed then piece[1..] else piece;
    assert AllDigits(digits) && digits != "";
    assert forall j :: (if signed then 1 else 0) <= j < |piece| ==> piece[j] == digits[if signed then j - 1 else j];
  }

  /** A word that is a value is written in letters. */
  lemma WordValue(word: string, piece: string)
    requires IsCapitals(word) && Upper(piece) == word
    ensures IsCompact(piece) && |piece| == |word| && forall i :: 0 <= i < |piece| ==> IsAlpha(piece[i])
  {
    hide Upper;
    UpperKeepsCapitals(word);
    CaselessLetters(piece, word);
  }

  lemma ValueIsCompact(v: SqlValue, piece: string)
    requires IsValue(v) && SpellsValue(piece, v)
    ensures IsCompact(piece)
  {
    match v
    case Integer(n) => IntegerIsCompact(n, piece);
    case Float(text) => NumberEndHolds(text, 0, false);
    case String(_) =>
    case Boolean(b) => WordValue(if b then "TRUE" else "FALSE", piece);
    case Null => WordValue("NULL", piece);
  }

  /** A token's text neither starts nor ends with a space. */
  lemma TokenIsCompact(t: Token, piece: string)
    requires IsToken(t) && Spells(piece, t)
    ensures IsCompact(piece)
  {
    match t
    case Verb(w) => CaselessLetters(piece, w);
    case Word(w) => CaselessLetters(piece, w);
    case Name(_) =>
    case Sign(_) =>
    case Operator(_) =>
    case Constant(v) => ValueIsCompact(v, piece);
  }

  /** A token at the start of a text is in front once spaces are skipped. */
  lemma StartIsFront(s: string, t: Token, rest: string) returns (piece: string)
    requires IsToken(t) && Starts(s, t, rest)
    ensures Front(s, piece, rest) && Spells(piece, t) && Ends(t, piece, rest) && IsCompact(piece)
  {
    var i, j :| StartsAt(s, t, rest, i, j);
    piece := s[i..j];
    TokenIsCompact(t, piece);
    hide Spells, Ends;
    assert s[i] == piece[0];
    assert forall k :: 0 <= k < i ==> s[..i][k] == s[k];
    PrefixLengthUnique(IsSpace, s, i);
    assert s[i..] == piece + rest;
  }

  // ---------------------------------------------------------------- tokens are read

  lemma WordIsRead(word: string, s: string, rest: string)
    requires IsCapitals(word) && Starts(s, Word(word), rest)
    ensures ReadKeyword(word, s) == Read((), rest)
  {
    var piece := StartIsFront(s, Word(word), rest);
    PieceIsKeyword(word, s, piece, rest);
  }

  lemma PieceIsKeyword(word: string, s: string, piece: string, rest: string)
    requires Front(s, piece, rest) && Upper(piece) == Upper(word) && (rest == "" || !IsWordChar(rest[0]))
    ensures ReadKeyword(word, s) == Read((), rest)
  {
    assert |piece| == |word|;
    assert (piece + rest)[..|word|] == piece && (piece + rest)[|word|..] == rest;
    hide Upper;
  }

  lemma NameIsRead(id: string, s: string, rest: string)
    requires IsIdentifier(id) && Starts(s, Name(id), rest)
    ensures ReadIdentifier(s) == Read(id, rest)
  {
    var piece := StartIsFront(s, Name(id), rest);
    IdentifierReads(id, s, rest);
  }

  lemma EqualsIsRead(s: string, rest: string)
    requires Starts(s, Sign('='), rest)
    ensures ReadEquals(s) == Read((), rest)
  {
    var piece := StartIsFront(s, Sign('='), rest);
    EqualsReads(s, rest);
  }

  lemma SignIsFirst(c: char, s: string, rest: string)
    requires IsToken(Sign(c)) && Starts(s, Sign(c), rest)
    ensures StartsWith(SkipSpace(s), c) && SkipSpace(s)[1..] == rest
  {
    var piece := StartIsFront(s, Sign(c), rest);
    assert (piece + rest)[1..] == rest;
  }

  lemma OperatorIsRead(op: ComparisonOp, s: string, rest: string)
    requires Starts(s, Operator(op), rest)
    ensures ReadComparison(s) == Read(op, rest)
  {
    var piece := StartIsFront(s, Operator(op), rest);
    var t := piece + rest;
    assert SkipSpace(s) == t;
    assert t[|piece|..] == rest && t[..|piece|] == piece;
    hide SkipSpace;
  }

  /** A number's end does not depend on a rest that does not go on from it. */
  lemma {:induction false} NumberEndBefore(s: string, rest: string, i: nat, dot: bool)
    requires i <= |s| && s != "" && NumberEnd(s, i, dot).0 == |s|
    requires rest == "" || (!IsDigit(rest[0]) && (rest[0] == '.' ==> NumberEnd(s, i, dot).1))
    ensures NumberEnd(s + rest, i, dot) == NumberEnd(s, i, dot)
    decreases |s| - i
  {
    if i < |s| {
      assert (s + rest)[i] == s[i];
      NumberEndBefore(s, rest, i + 1, dot || s[i] == '.');
    } else if rest != "" {
      assert (s + rest)[i] == rest[0];
    }
  }

  lemma IntegerIsRead(n: i64, piece: string, rest: string)
    requires SpellsValue(piece, Integer(n)) && ValueBounded(Integer(n), piece, rest)
    ensures ReadNumber(piece + rest) == Read(Integer(n), rest)
  {
    IntegerIsCompact(n, piece);
    DigitsEnd(piece, if IsDigit(piece[0]) then 0 else 1);
    assert NumberEnd(piece, 0, false) == (|piece|, false);
    NumberEndBefore(piece, rest, 0, false);
    assert (piece + rest)[..|piece|] == piece && (piece + rest)[|piece|..] == rest;
    hide NumberEnd, ParseInteger;
  }

  lemma FloatIsRead(text: string, rest: string)
    requires IsFloatText(text) && ValueBounded(Float(text), text, rest)
    ensures ReadNumber(text + rest) == Read(Float(text), rest)
  {
    NumberEndBefore(text, rest, 0, false);
    assert (text + rest)[..|text|] == text && (text + rest)[|text|..] == rest;
    DotComesSecond(text);
    hide NumberEnd;
  }

  lemma DotComesSecond(s: string)
    requires s != ""
    ensures NumberEnd(s, 0, false) == (|s|, true) ==> |s| > 1
  {
    assert |s| == 1 ==> NumberEnd(s, 1, false) == (1, false);
  }

  lemma StringIsRead(v: string, quote: char, piece: string, rest: string)
    requires piece == Quoted(quote, v) && !StartsWith(rest, quote)
    ensures StartsWith(piece + rest, quote) && ReadString(quote, piece + rest) == Read(String(v), rest)
  {
    var body := Doubled(quote, v);
    var t := piece + rest;
    DoubledReads(quote, v, rest);
    assert t[1..] == body + ([quote] + rest);
    assert t[1..][..|body|] == body && t[1..][|body| + 1..] == rest;
    hide Doubled, Undoubled, BodyLength;
  }

  lemma ConstantIsRead(word: string, piece: string, rest: string)
    requires word in {"TRUE", "FALSE", "NULL"} && Upper(piece) == word && (rest == "" || !IsAlpha(rest[0]))
    ensures piece != "" && IsAlpha(piece[0])
    ensures ReadConstant(piece + rest) ==
      Read(if word == "TRUE" then Boolean(true) else if word == "FALSE" then Boolean(false) else Null, rest)
  {
    WordValue(word, piece);
    PrefixLengthUnique(IsAlpha, piece + rest, |piece|);
    hide Upper, PrefixLength;
    assert (piece + rest)[..|piece|] == piece && (piece + rest)[|piece|..] == rest;
  }

  lemma ConstantTokenIsRead(v: SqlValue, s: string, rest: string)
    requires IsValue(v) && Starts(s, Constant(v), rest)
    ensures ReadValue(s) == Read(v, rest)
  {
    var piece := StartIsFront(s, Constant(v), rest);
    var t := piece + rest;
    assert SkipSpace(s) == t && t[0] == piece[0];
    hide SkipSpace, ReadConstant, ReadString, ReadNumber, Starts;
    match v
    case Integer(n) =>
      IntegerIsRead(n, piece, rest);
      hide Digits;
    case Float(text) => FloatIsRead(text, rest);
    case String(text) =>
      var q :| (q == '\'' || q == '"') && piece == Quoted(q, text);
      StringIsRead(text, q, piece, rest);
    case Boolean(b) => ConstantIsRead(if b then "TRUE" else "FALSE", piece, rest);
    case Null => ConstantIsRead("NULL", piece, rest);
  }

  // ---------------------------------------------------------------- lists are read

  lemma FirstToken(s: string, t: Token, tokens: seq<Token>) returns (rest: string)
    requires Lays(s, [t] + tokens)
    ensures Starts(s, t, rest) && Lays(rest, tokens)
  {
    assert ([t] + tokens)[1..] == tokens;
    rest :| Starts(s, t, rest) && Lays(rest, tokens);
    hide Starts;
  }

  /** An item that is read wherever its token stands. */
  ghost predicate IsReadAs<T>(item: string -> Reading<T>, token: T -> Token, x: T) {
    forall s, rest :: Starts(s, token(x), rest) ==>
      item(SkipSpace(s)) == Read(x, rest) && !StartsWith(SkipSpace(s), ')')
  }

  lemma {:induction false} ItemTokensAreRead<T>(item: string -> Reading<T>, token: T -> Token, xs: seq<T>,
                                                comma: bool, s: string,
                                            tokens: seq<Token>) returns (rest: string)
    requires Advances(item) && forall x :: x in xs ==> IsReadAs(item, token, x)
    requires Lays(s, ItemTokens(Mapped(token, xs), comma) + tokens)
    ensures ReadItems(item, s) == Read(xs, rest) && Lays(rest, tokens)
    decreases |xs|
  {
    if xs == [] {
      NoItemTokens(token, comma, tokens);
      rest := FirstToken(s, Sign(')'), tokens);
      SignIsFirst(')', s, rest);
    } else if |xs| == 1 && !comma {
      OneItemTokens(token, xs[0], tokens);
      assert xs == [xs[0]] && IsReadAs(item, token, xs[0]);
      var after := FirstToken(s, token(xs[0]), [Sign(')')] + tokens);
      rest := FirstToken(after, Sign(')'), tokens);
      SignIsFirst(')', after, rest);
      hide IsReadAs, Starts, SkipSpace, ItemTokens;
      ReadAs(item, token, xs[0], s, after);
    } else {
      var more := xs[1..];
      assert xs == [xs[0]] + more && IsReadAs(item, token, xs[0]);
      NextTokens(token, xs[0], more, comma, tokens);
      var after := FirstToken(s, token(xs[0]), [Sign(',')] + (ItemTokens(Mapped(token, more), comma) + tokens));
      var next := FirstToken(after, Sign(','), ItemTokens(Mapped(token, more), comma) + tokens);
      SignIsFirst(',', after, next);
      hide IsReadAs, Starts, SkipSpace, ItemTokens;
      ReadAs(item, token, xs[0], s, after);
      rest := ItemTokensAreRead(item, token, more, comma, next, tokens);
    }
  }

  lemma ReadAs<T>(item: string -> Reading<T>, token: T -> Token, x: T, s: string, rest: string)
    requires IsReadAs(item, token, x) && Starts(s, token(x), rest)
    ensures item(SkipSpace(s)) == Read(x, rest) && !StartsWith(SkipSpace(s), ')')
  {
    hide Starts, SkipSpace;
  }

  lemma NoItemTokens<T>(token: T -> Token, comma: bool, tokens: seq<Token>)
    ensures ItemTokens(Mapped(token, []), comma) + tokens == [Sign(')')] + tokens
  {
  }

  lemma ListIsRead<T>(item: string -> Reading<T>, token: T -> Token, xs: seq<T>, comma: bool, s: string,
                      tokens: seq<Token>)
    returns (rest: string)
    requires Advances(item) && forall x :: x in xs ==> IsReadAs(item, token, x)
    requires Lays(s, [Sign('(')] + (ItemTokens(Mapped(token, xs), comma) + tokens))
    ensures ReadList(item, s) == Read(xs, rest) && Lays(rest, tokens)
  {
    var after := FirstToken(s, Sign('('), ItemTokens(Mapped(token, xs), comma) + tokens);
    SignIsFirst('(', s, after);
    rest := ItemTokensAreRead(item, token, xs, comma, after, tokens);
    hide Starts, SkipSpace, ItemTokens, ReadItems, IsReadAs;
  }

  lemma SkippedStart(s: string, t: Token, rest: string)
    requires IsToken(t) && Starts(s, t, rest)
    ensures Starts(SkipSpace(s), t, rest)
  {
    var piece := StartIsFront(s, t, rest);
    var u := SkipSpace(s);
    assert u == piece + rest;
    assert u[..0] == "" && u[0..|piece|] == piece && u[|piece|..] == rest;
    hide Spells, Ends, SkipSpace;
    assert StartsAt(u, t, rest, 0, |piece|);
  }

  lemma NamesAreRead(id: string)
    requires IsIdentifier(id)
    ensures IsReadAs(ReadIdentifier, id => Name(id), id)
  {
    forall s, rest | Starts(s, Name(id), rest)
      ensures ReadIdentifier(SkipSpace(s)) == Read(id, rest) && !StartsWith(SkipSpace(s), ')')
    {
      SkippedStart(s, Name(id), rest);
      NameIsRead(id, SkipSpace(s), rest);
      var piece := StartIsFront(s, Name(id), rest);
    }
  }

  lemma ConstantsAreRead(v: SqlValue)
    requires IsValue(v)
    ensures IsReadAs(ReadValue, v => Constant(v), v)
  {
    forall s, rest | Starts(s, Constant(v), rest)
      ensures ReadValue(SkipSpace(s)) == Read(v, rest) && !StartsWith(SkipSpace(s), ')')
    {
      SkippedStart(s, Constant(v), rest);
      ConstantTokenIsRead(v, SkipSpace(s), rest);
      ParenthesisStartsNoValue(SkipSpace(s));
    }
  }

  lemma ParenthesisStartsNoValue(s: string)
    requires ReadValue(s).Read?
    ensures !StartsWith(s, ')')
  {
  }

  // ---------------------------------------------------------------- statements are read

  lemma ConditionIsRead(c: Condition, s: string, tokens: seq<Token>) returns (rest: string)
    requires IsCondition(c) && Lays(s, ConditionTokens(c) + tokens)
    ensures ReadCondition(s) == Ok((c, rest)) && Lays(rest, tokens)
  {
    hide *;
    ConditionSplit(c, tokens);
    ConditionValid(c);
    var s1 := FirstToken(s, Name(c.column), [Operator(c.operator)] + ([Constant(c.value)] + tokens));
    var s2 := FirstToken(s1, Operator(c.operator), [Constant(c.value)] + tokens);
    rest := FirstToken(s2, Constant(c.value), tokens);
    NameIsRead(c.column, s, s1);
    OperatorIsRead(c.operator, s1, s2);
    ConstantTokenIsRead(c.value, s2, rest);
    ConditionChain(c, s, s1, s2, rest);
  }

  lemma ConditionSplit(c: Condition, tokens: seq<Token>)
    ensures ConditionTokens(c) + tokens == [Name(c.column)] + ([Operator(c.operator)] + ([Constant(c.value)] + tokens))
  {
  }

  lemma ConditionValid(c: Condition)
    requires IsCondition(c)
    ensures IsIdentifier(c.column) && IsValue(c.value)
  {
  }

  lemma BlankIsRead(s: string)
    requires Lays(s, [])
    ensures ReadEnd(s).Read?
  {
    PrefixLengthUnique(IsSpace, s, |s|);
  }

  /** What is left after the verb. */
  lemma UpdateIsRead(table: string, column: string, value: SqlValue, condition: Condition, s: string)
    requires IsStatement(Update(table, column, value, condition))
    requires Lays(s, Tokens(Update(table, column, value, condition), false, false)[1..])
    ensures ReadUpdate(s) == Ok(Update(table, column, value, condition))
  {
    UpdateSplit(table, column, value, condition);
    CapitalWords();
    hide *;
    var w := [Word("WHERE")] + (ConditionTokens(condition) + []);
    var s1 := FirstToken(s, Name(table), [Word("SET")] + ([Name(column)] + ([Sign('=')] + ([Constant(value)] + w))));
    var s2 := FirstToken(s1, Word("SET"), [Name(column)] + ([Sign('=')] + ([Constant(value)] + w)));
    var s3 := FirstToken(s2, Name(column), [Sign('=')] + ([Constant(value)] + w));
    var s4 := FirstToken(s3, Sign('='), [Constant(value)] + w);
    var s5 := FirstToken(s4, Constant(value), w);
    var s6 := FirstToken(s5, Word("WHERE"), ConditionTokens(condition) + []);
    var rest := ConditionIsRead(condition, s6, []);
    NameIsRead(table, s, s1);
    WordIsRead("SET", s1, s2);
    NameIsRead(column, s2, s3);
    EqualsIsRead(s3, s4);
    ConstantTokenIsRead(value, s4, s5);
    WordIsRead("WHERE", s5, s6);
    BlankIsRead(rest);
    UpdateChain(table, column, value, condition, s, s1, s2, s3, s4, s5, s6, rest);
  }

  lemma UpdateSplit(table: string, column: string, value: SqlValue, condition: Condition)
    ensures Tokens(Update(table, column, value, condition), false, false)[1..] ==
      [Name(table)] + ([Word("SET")] + ([Name(column)] + ([Sign('=')] + ([Constant(value)] +
      ([Word("WHERE")] + (ConditionTokens(condition) + []))))))
    ensures IsStatement(Update(table, column, value, condition)) ==>
      IsIdentifier(table) && IsIdentifier(column) && IsValue(value) && IsCondition(condition)
  {
    UpdateTokens(table, column, value, condition);
    hide ConditionTokens, IsIdentifier, IsValue, IsCondition;
  }

  lemma CapitalWords()
    ensures IsCapitals("SET") && IsCapitals("WHERE") && IsCapitals("FROM") && IsCapitals("INTO") && IsCapitals("VALUES")
    ensures IsCapitals("UPDATE") && IsCapitals("INSERT") && IsCapitals("DELETE")
  {
  }

  lemma DeleteIsRead(table: string, condition: Condition, s: string)
    requires IsStatement(Delete(table, condition)) && Lays(s, Tokens(Delete(table, condition), false, false)[1..])
    ensures ReadDelete(s) == Ok(Delete(table, condition))
  {
    DeleteSplit(table, condition);
    CapitalWords();
    hide *;
    var w := [Word("WHERE")] + (ConditionTokens(condition) + []);
    var s1 := FirstToken(s, Word("FROM"), [Name(table)] + w);
    var s2 := FirstToken(s1, Name(table), w);
    var s3 := FirstToken(s2, Word("WHERE"), ConditionTokens(condition) + []);
    var rest := ConditionIsRead(condition, s3, []);
    WordIsRead("FROM", s, s1);
    NameIsRead(table, s1, s2);
    WordIsRead("WHERE", s2, s3);
    BlankIsRead(rest);
    DeleteChain(table, condition, s, s1, s2, s3, rest);
  }

  lemma DeleteSplit(table: string, condition: Condition)
    ensures Tokens(Delete(table, condition), false, false)[1..] ==
      [Word("FROM")] + ([Name(table)] + ([Word("WHERE")] + (ConditionTokens(condition) + [])))
    ensures IsStatement(Delete(table, condition)) ==> IsIdentifier(table) && IsCondition(condition)
  {
    DeleteTokens(table, condition);
    hide ConditionTokens, IsIdentifier, IsCondition;
  }

  lemma DeleteChain(table: string, condition: Condition, s0: string, s1: string, s2: string, s3: string, rest: string)
    requires ReadKeyword("FROM", s0) == Read((), s1) && ReadIdentifier(s1) == Read(table, s2)
    requires ReadKeyword("WHERE", s2) == Read((), s3) && ReadCondition(s3) == Ok((condition, rest)) &&
      ReadEnd(rest).Read?
    ensures ReadDelete(s0) == Ok(Delete(table, condition))
  {
    hide ReadIdentifier, ReadKeyword, ReadCondition, ReadEnd;
  }

  lemma InsertIsRead(table: string, columns: seq<string>, values: seq<SqlValue>, c1: bool, c2: bool, s: string)
    requires IsStatement(Insert(table, columns, values)) && Lays(s, Tokens(Insert(table, columns, values), c1, c2)[1..])
    ensures ReadInsert(s) == Ok(Insert(table, columns, values))
  {
    InsertSplit(table, columns, values, c1, c2);
    CapitalWords();
    ItemsReadAs(columns, values);
    IdentifiersAdvance();
    ValuesAdvance();
    hide *;
    var vs := [Sign('(')] + (ItemTokens(Mapped(v => Constant(v), values), c2) + []);
    var cs := [Sign('(')] + (ItemTokens(Mapped(id => Name(id), columns), c1) + ([Word("VALUES")] + vs));
    var s1 := FirstToken(s, Word("INTO"), [Name(table)] + cs);
    var s2 := FirstToken(s1, Name(table), cs);
    var s3 := ListIsRead(ReadIdentifier, id => Name(id), columns, c1, s2, [Word("VALUES")] + vs);
    var s4 := FirstToken(s3, Word("VALUES"), vs);
    var rest := ListIsRead(ReadValue, v => Constant(v), values, c2, s4, []);
    WordIsRead("INTO", s, s1);
    NameIsRead(table, s1, s2);
    WordIsRead("VALUES", s3, s4);
    BlankIsRead(rest);
    InsertChain(table, columns, values, s, s1, s2, s3, s4, rest);
  }

  lemma InsertSplit(table: string, columns: seq<string>, values: seq<SqlValue>, c1: bool, c2: bool)
    ensures
      var vs := [Sign('(')] + (ItemTokens(Mapped(v => Constant(v), values), c2) + []);
      var cs := [Sign('(')] + (ItemTokens(Mapped(id => Name(id), columns), c1) + ([Word("VALUES")] + vs));
      Tokens(Insert(table, columns, values), c1, c2)[1..] == [Word("INTO")] + ([Name(table)] + cs)
    ensures IsStatement(Insert(table, columns, values)) ==>
      IsIdentifier(table) && |columns| == |values| && (forall c :: c in columns ==> IsIdentifier(c)) &&
      (forall v :: v in values ==> IsValue(v))
  {
    InsertTokens(table, columns, values, c1, c2);
    hide ItemTokens, IsIdentifier, IsValue;
  }

  lemma ItemsReadAs(columns: seq<string>, values: seq<SqlValue>)
    ensures forall c :: c in columns && IsIdentifier(c) ==> IsReadAs(ReadIdentifier, id => Name(id), c)
    ensures forall v :: v in values && IsValue(v) ==> IsReadAs(ReadValue, v => Constant(v), v)
  {
    forall c | c in columns && IsIdentifier(c) ensures IsReadAs(ReadIdentifier, id => Name(id), c) {
      NamesAreRead(c);
    }
    forall v | v in values && IsValue(v) ensures IsReadAs(ReadValue, v => Constant(v), v) {
      ConstantsAreRead(v);
    }
    hide IsReadAs, IsIdentifier, IsValue;
  }

  // ---------------------------------------------------------------- whole texts

  /** Every token of a well-formed statement can be laid out. */
  lemma {:induction false} ItemTokensValid(items: seq<Token>, comma: bool)
    requires forall t :: t in items ==> IsToken(t)
    ensures forall t :: t in ItemTokens(items, comma) ==> IsToken(t)
  {
    if |items| > 1 {
      ItemTokensValid(items[1..], comma);
    }
  }

  lemma TokensValid(s: Statement, c1: bool, c2: bool)
    requires IsStatement(s)
    ensures forall t :: t in Tokens(s, c1, c2) ==> IsToken(t)
    ensures Tokens(s, c1, c2) != [] && Tokens(s, c1, c2)[0] == Verb(SqlRoundTrip.Verb(s))
  {
    hide ItemTokens, IsIdentifier, IsValue, IsCapitals;
    CapitalWords();
    if s.Insert? {
      ItemTokensValid(Names(s.columns), c1);
      ItemTokensValid(Constants(s.values), c2);
    }
  }

  /** A trailing space more or less makes no difference. */
  lemma {:induction false} LaysWithoutLast(s: string, tokens: seq<Token>)
    requires s != "" && IsSpace(s[|s| - 1]) && Lays(s, tokens) && forall t :: t in tokens ==> IsToken(t)
    ensures Lays(s[..|s| - 1], tokens)
    decreases |tokens|
  {
    if tokens != [] {
      var t := tokens[0];
      var rest :| Starts(s, t, rest) && Lays(rest, tokens[1..]);
      var piece := StartIsFront(s, t, rest);
      FrontBeforeLast(s, t, piece, rest);
      LaysWithoutLast(rest, tokens[1..]);
      hide Starts;
      assert tokens == [t] + tokens[1..];
      LaysNext(s[..|s| - 1], t, rest[..|rest| - 1], tokens[1..]);
    }
  }

  lemma FrontBeforeLast(s: string, t: Token, piece: string, rest: string)
    requires s != "" && IsSpace(s[|s| - 1]) && IsToken(t) && Starts(s, t, rest)
    ensures rest != "" && IsSpace(rest[|rest| - 1]) && Starts(s[..|s| - 1], t, rest[..|rest| - 1])
  {
    var i, j :| StartsAt(s, t, rest, i, j);
    TokenIsCompact(t, s[i..j]);
    EndsBeforeLast(t, s[i..j], rest);
    hide Spells, Ends;
    LastIsOutside(s, i, j);
    hide IsCompact;
    SlicesBeforeLast(s, i, j);
    assert StartsAt(s[..|s| - 1], t, rest[..|rest| - 1], i, j);
  }

  lemma LastIsOutside(s: string, i: nat, j: nat)
    requires i <= j <= |s| && s != "" && IsSpace(s[|s| - 1]) && IsCompact(s[i..j])
    ensures j < |s|
  {
    assert s[i..j][j - i - 1] == s[j - 1];
  }

  lemma SlicesBeforeLast(s: string, i: nat, j: nat)
    requires i <= j < |s|
    ensures var u := s[..|s| - 1];
      u[..i] == s[..i] && u[i..j] == s[i..j] && u[j..] == s[j..][..|s[j..]| - 1]
    ensures s[j..] != "" && s[j..][|s[j..]| - 1] == s[|s| - 1]
  {
  }

  lemma EndsBeforeLast(t: Token, piece: string, rest: string)
    requires Ends(t, piece, rest)
    ensures rest != "" ==> Ends(t, piece, rest[..|rest| - 1])
  {
  }

  lemma {:induction false} LaysTrimmedEnd(s: string, tokens: seq<Token>)
    requires Lays(s, tokens) && forall t :: t in tokens ==> IsToken(t)
    ensures Lays(TrimEnd(s), tokens)
    decreases |s|
  {
    if s != "" && IsSpace(s[|s| - 1]) {
      LaysWithoutLast(s, tokens);
      LaysTrimmedEnd(s[..|s| - 1], tokens);
    }
    hide Lays;
  }

  lemma LaysTrimmedText(s: string, tokens: seq<Token>)
    requires Lays(s, tokens) && tokens != [] && forall t :: t in tokens ==> IsToken(t)
    ensures Lays(Trim(s), tokens)
  {
    assert tokens == [tokens[0]] + tokens[1..];
    hide *;
    var rest := FirstToken(s, tokens[0], tokens[1..]);
    SkippedStart(s, tokens[0], rest);
    LaysNext(SkipSpace(s), tokens[0], rest, tokens[1..]);
    LaysTrimmedEnd(SkipSpace(s), tokens);
    TrimIs(s);
  }

  lemma TrimIs(s: string)
    ensures Trim(s) == TrimEnd(SkipSpace(s))
  {
  }

  /** A verb that a space ends is the first word. */
  lemma VerbIsRead(word: string, sql: string, rest: string)
    requires word in {"UPDATE", "INSERT", "DELETE"} && Starts(Trim(sql), Verb(word), rest)
    ensures word == "UPDATE" ==> ReadStatement(sql) == ReadUpdate(rest)
    ensures word == "INSERT" ==> ReadStatement(sql) == ReadInsert(rest)
    ensures word == "DELETE" ==> ReadStatement(sql) == ReadDelete(rest)
  {
    hide Upper, IsCapitals;
    CapitalWords();
    TrimmedStart(sql);
    var text := Trim(sql);
    var piece := StartIsFront(text, Verb(word), rest);
    PieceIsKeyword(word, text, piece, rest);
    UnspacedText(text);
    assert text == piece + rest;
    LettersInFront(word, piece, rest);
    TextDispatch(sql, word, rest);
  }

  lemma UnspacedText(s: string)
    requires s == "" || !IsSpace(s[0])
    ensures SkipSpace(s) == s
  {
    PrefixLengthUnique(IsSpace, s, 0);
  }

  lemma LettersInFront(word: string, piece: string, rest: string)
    requires IsCapitals(word) && Upper(piece) == Upper(word) && (rest == "" || IsSpace(rest[0]))
    ensures FirstWord(piece + rest) == word && piece + rest != ""
  {
    hide Upper;
    CaselessLetters(piece, word);
    UpperKeepsCapitals(word);
    PrefixLengthUnique(c => !IsSpace(c), piece + rest, |piece|);
    assert (piece + rest)[..|piece|] == piece;
  }

  lemma TextDispatch(sql: string, word: string, rest: string)
    requires Trim(sql) != "" && FirstWord(Trim(sql)) == word && ReadKeyword(word, Trim(sql)) == Read((), rest)
    ensures word == "UPDATE" ==> ReadStatement(sql) == ReadUpdate(rest)
    ensures word == "INSERT" ==> ReadStatement(sql) == ReadInsert(rest)
    ensures word == "DELETE" ==> ReadStatement(sql) == ReadDelete(rest)
  {
    hide Trim, FirstWord, ReadKeyword, ReadUpdate, ReadInsert, ReadDelete;
  }

  /** Every layout of a well-formed statement is accepted, and denotes it. */
  lemma LayoutIsAccepted(sql: string, s: Statement, c1: bool, c2: bool)
    requires IsStatement(s) && Lays(sql, Tokens(s, c1, c2))
    ensures ReadStatement(sql) == Ok(s)
  {
    hide *;
    TokensValid(s, c1, c2);
    var tokens := Tokens(s, c1, c2);
    LaysTrimmedText(sql, tokens);
    assert tokens == [tokens[0]] + tokens[1..];
    var rest := FirstToken(Trim(sql), tokens[0], tokens[1..]);
    VerbIs(s);
    VerbIsRead(SqlRoundTrip.Verb(s), sql, rest);
    CommasMatter(s, c1, c2);
    match s
    case Update(table, column, value, condition) => UpdateIsRead(table, column, value, condition, rest);
    case Insert(table, columns, values) => InsertIsRead(table, columns, values, c1, c2, rest);
    case Delete(table, condition) => DeleteIsRead(table, condition, rest);
  }

  lemma CommasMatter(s: Statement, c1: bool, c2: bool)
    ensures !s.Insert? ==> Tokens(s, c1, c2) == Tokens(s, false, false)
  {
    hide ConditionTokens, ItemTokens;
  }

  ghost predicate LaysOut(sql: string, s: Statement) {
    exists c1, c2 :: Lays(sql, Tokens(s, c1, c2))
  }

  /** The language and its meaning: a text is accepted as a statement exactly if the statement is well-formed and
      the text lays it out. */
  lemma LanguageIs(sql: string, s: Statement)
    ensures ReadStatement(sql) == Ok(s) <==> IsStatement(s) && LaysOut(sql, s)
  {
    hide ReadStatement, Lays, Tokens, IsStatement;
    if ReadStatement(sql) == Ok(s) {
      ParsedIsStatement(sql);
      var c1, c2 := AcceptedIsLayout(sql);
    }
    if IsStatement(s) && LaysOut(sql, s) {
      var c1, c2 :| Lays(sql, Tokens(s, c1, c2));
      LayoutIsAccepted(sql, s, c1, c2);
    }
  }
}
