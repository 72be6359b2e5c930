/** An accepted text is a layout of the statement it denotes: exactly that statement's tokens, in order, with
    nothing but space between and after them. What is free is the case of keywords, the spelling of numerals, the
    choice of quote, the two spellings of "not equal", and a comma before a closing parenthesis. */
module SqlLayout {
  import opened Machine
  import opened Texts
  import opened SqlGrammar
  import opened SqlRoundTrip

  datatype Token =
    | Verb(verb: string)
    | Word(word: string)
    | Name(id: string)
    | Sign(c: char)
    | Operator(op: ComparisonOp)
    | Constant(v: SqlValue)

  // ---------------------------------------------------------------- how a token may be written

  ghost predicate SpellsValue(piece: string, v: SqlValue) {
    match v
    case Integer(i) => ParseInteger(piece, I64_MIN, I64_MAX) == Some(i)
    case Float(text) => piece == text
    case String(s) => exists q :: (q == '\'' || q == '"') && piece == Quoted(q, s)
    case Boolean(b) => Upper(piece) == if b then "TRUE" else "FALSE"
    case Null => Upper(piece) == "NULL"
  }

  ghost predicate Spells(piece: string, t: Token) {
    match t
    case Verb(w) => Upper(piece) == Upper(w)
    case Word(w) => Upper(piece) == Upper(w)
    case Name(id) => piece == id
    case Sign(c) => piece == [c]
    case Operator(op) => piece == ComparisonText(op) || (op == Ne && piece == "<>")
    case Constant(v) => SpellsValue(piece, v)
  }

  /** Nothing in the rest goes on from the value's text. */
  ghost predicate ValueBounded(v: SqlValue, piece: string, rest: string) {
    rest == "" ||
    match v
    case Integer(_) => !IsDigit(rest[0]) && rest[0] != '.'
    case Float(_) => !IsDigit(rest[0])
    case String(_) => piece != "" && rest[0] != piece[0]
    case Boolean(_) => !IsAlpha(rest[0])
    case Null => !IsAlpha(rest[0])
  }

  /** Nothing in the rest goes on from the token: a space must follow the verb, no word character a word, no second sign
      character a comparison that could take it. */
  ghost predicate Ends(t: Token, piece: string, rest: string) {
    rest == "" ||
    match t
    case Verb(_) => IsSpace(rest[0])
    case Word(_) => !IsWordChar(rest[0])
    case Name(_) => !IsWordChar(rest[0])
    case Sign(_) => true
    case Operator(op) => (op == Lt ==> rest[0] != '=' && rest[0] != '>') && (op == Gt ==> rest[0] != '=')
    case Constant(v) => ValueBounded(v, piece, rest)
  }

  /** A text starts with a token, after spaces, and the rest follows it. */
  ghost predicate Starts(s: string, t: Token, rest: string) {
    exists i, j :: StartsAt(s, t, rest, i, j)
  }

  ghost predicate StartsAt(s: string, t: Token, rest: string, i: int, j: int) {
    0 <= i <= j <= |s| && Blank(s[..i]) && Spells(s[i..j], t) && s[j..] == rest && Ends(t, s[i..j], rest)
  }

  /** A text is these tokens. */
  ghost predicate Lays(s: string, tokens: seq<Token>)
    decreases |tokens|
  {
    if tokens == [] then Blank(s)
    else exists rest :: Starts(s, tokens[0], rest) && Lays(rest, tokens[1..])
  }

  // ---------------------------------------------------------------- a statement's tokens

  function ItemTokens(items: seq<Token>, comma: bool): seq<Token> {
    if items == [] then [Sign(')')]
    else if |items| == 1 then [items[0]] + (if comma then [Sign(',')] else []) + [Sign(')')]
    else [items[0], Sign(',')] + ItemTokens(items[1..], comma)
  }

  function ConditionTokens(c: Condition): seq<Token> {
    [Name(c.column), Operator(c.operator), Constant(c.value)]
  }

  function Names(columns: seq<string>): (r: seq<Token>)
    ensures |r| == |columns| && forall i :: 0 <= i < |r| ==> r[i] == Name(columns[i])
  {
    seq(|columns|, i requires 0 <= i < |columns| => Name(columns[i]))
  }

  function Constants(values: seq<SqlValue>): (r: seq<Token>)
    ensures |r| == |values| && forall i :: 0 <= i < |r| ==> r[i] == Constant(values[i])
  {
    seq(|values|, i requires 0 <= i < |values| => Constant(values[i]))
  }

  function Tokens(s: Statement, columnComma: bool, valueComma: bool): seq<Token> {
    match s
    case Update(table, column, value, condition) =>
      [Verb("UPDATE"), Name(table), Word("SET"), Name(column), Sign('='), Constant(value), Word("WHERE")]
      + ConditionTokens(condition)
    case Insert(table, columns, values) =>
      [Verb("INSERT"), Word("INTO"), Name(table), Sign('(')] + (ItemTokens(Names(columns), columnComma)
      + ([Word("VALUES"), Sign('(')] + ItemTokens(Constants(values), valueComma)))
    case Delete(table, condition) =>
      [Verb("DELETE"), Word("FROM"), Name(table), Word("WHERE")] + ConditionTokens(condition)
  }

  // ---------------------------------------------------------------- what is read was there

  /** A token found after skipping spaces. */
  lemma FoundAfterSpace(s: string, t: Token, n: nat)
    requires n <= |SkipSpace(s)| && Spells(SkipSpace(s)[..n], t)
    requires Ends(t, SkipSpace(s)[..n], SkipSpace(s)[n..])
    ensures Starts(s, t, SkipSpace(s)[n..])
  {
    var i := PrefixLength(IsSpace, s);
    assert SkipSpace(s)[..n] == s[i..i + n] && SkipSpace(s)[n..] == s[i + n..];
    assert StartsAt(s, t, SkipSpace(s)[n..], i, i + n);
  }

  lemma KeywordStarts(word: string, s: string)
    ensures ReadKeyword(word, s).Read? ==> Starts(s, Word(word), ReadKeyword(word, s).rest)
  {
    if ReadKeyword(word, s).Read? {
      FoundAfterSpace(s, Word(word), |word|);
    }
  }

  /** The leading word of a statement, which a space ends. */
  lemma VerbStarts(word: string, s: string)
    requires FirstWord(s) == Upper(word) && (s == "" || !IsSpace(s[0]))
    ensures ReadKeyword(word, s).Read? ==> Starts(s, Verb(word), ReadKeyword(word, s).rest)
  {
    if ReadKeyword(word, s).Read? {
      PrefixLengthUnique(IsSpace, s, 0);
      assert |FirstWord(s)| == |word|;
      assert Ends(Verb(word), SkipSpace(s)[..|word|], SkipSpace(s)[|word|..]);
      FoundAfterSpace(s, Verb(word), |word|);
    }
  }

  lemma EqualsStarts(s: string)
    ensures ReadEquals(s).Read? ==> Starts(s, Sign('='), ReadEquals(s).rest)
  {
    if ReadEquals(s).Read? {
      FoundAfterSpace(s, Sign('='), 1);
    }
  }

  lemma IdentifierStarts(s: string)
    ensures ReadIdentifier(s).Read? ==> Starts(s, Name(ReadIdentifier(s).value), ReadIdentifier(s).rest)
  {
    if ReadIdentifier(s).Read? {
      FoundAfterSpace(s, Name(ReadIdentifier(s).value), PrefixLength(IsWordChar, SkipSpace(s)));
    }
  }

  lemma ComparisonStarts(s: string)
    ensures ReadComparison(s).Read? ==> Starts(s, Operator(ReadComparison(s).value), ReadComparison(s).rest)
  {
    var t := SkipSpace(s);
    if ReadComparison(s).Read? {
      var n := |t| - |ReadComparison(s).rest|;
      assert t[..n] == ComparisonText(ReadComparison(s).value) || (ReadComparison(s).value == Ne && t[..n] == "<>");
      FoundAfterSpace(s, Operator(ReadComparison(s).value), n);
    }
  }

  /** The body of a literal is its text with the quotes doubled. */
  lemma {:induction false} BodyIsDoubled(quote: char, s: string)
    requires BodyLength(quote, s).Some?
    ensures s[..BodyLength(quote, s).value] == Doubled(quote, Undoubled(quote, s[..BodyLength(quote, s).value]))
    decreases |s|
  {
    var n := BodyLength(quote, s).value;
    if s[0] != quote {
      BodyIsDoubled(quote, s[1..]);
      assert s[..n] == [s[0]] + s[1..][..n - 1];
      BodyHead(quote, s[0], s[1..][..n - 1]);
    } else if StartsWith(s[1..], quote) {
      BodyIsDoubled(quote, s[2..]);
      assert s[..n] == [quote, quote] + s[2..][..n - 2];
      BodyHead(quote, quote, s[2..][..n - 2]);
    } else {
      assert s[..0] == "";
    }
  }

  lemma BodyHead(quote: char, c: char, body: string)
    requires body == Doubled(quote, Undoubled(quote, body))
    ensures var text := (if c == quote then [quote, quote] else [c]) + body;
      text == Doubled(quote, Undoubled(quote, text))
  {
    HeadReads(quote, c, body);
    var inner := Undoubled(quote, body);
    assert ([c] + inner)[1..] == inner;
  }

  lemma StringStarts(s: string, quote: char)
    requires SkipSpace(s) != "" && SkipSpace(s)[0] == quote && (quote == '\'' || quote == '"')
    ensures ReadString(quote, SkipSpace(s)).Read? ==>
      Starts(s, Constant(ReadString(quote, SkipSpace(s)).value), ReadString(quote, SkipSpace(s)).rest)
  {
    var t := SkipSpace(s);
    if ReadString(quote, t).Read? {
      var n := BodyLength(quote, t[1..]).value;
      var text := Undoubled(quote, t[1..][..n]);
      BodyIsDoubled(quote, t[1..]);
      hide Doubled, Undoubled, BodyLength;
      hide SkipSpace, Starts;
      QuotedPiece(t, quote, n);
      assert t[..n + 2] == Quoted(quote, text);
      assert Spells(t[..n + 2], Constant(String(text)));
      assert !StartsWith(t[1..][n + 1..], quote) by { BodyCloses(quote, t[1..]); }
      FoundAfterSpace(s, Constant(String(text)), n + 2);
    }
  }

  /** The quote that closes a body is not doubled. */
  lemma {:induction false} BodyCloses(quote: char, s: string)
    requires BodyLength(quote, s).Some?
    ensures !StartsWith(s[BodyLength(quote, s).value + 1..], quote)
    decreases |s|
  {
    var n := BodyLength(quote, s).value;
    if s[0] != quote {
      BodyCloses(quote, s[1..]);
      assert s[n + 1..] == s[1..][n..];
    } else if StartsWith(s[1..], quote) {
      BodyCloses(quote, s[2..]);
      assert s[n + 1..] == s[2..][n - 1..];
    }
  }

  lemma QuotedPiece(t: string, quote: char, n: nat)
    requires n + 1 < |t| && t[0] == quote && t[n + 1] == quote
    ensures t[..n + 2] == [quote] + (t[1..][..n] + [quote]) && t[n + 2..] == t[1..][n + 1..]
  {
  }

  lemma ConstantStarts(s: string)
    requires SkipSpace(s) != ""
    ensures ReadConstant(SkipSpace(s)).Read? ==>
      Starts(s, Constant(ReadConstant(SkipSpace(s)).value), ReadConstant(SkipSpace(s)).rest)
  {
    var t := SkipSpace(s);
    var n := PrefixLength(IsAlpha, t);
    if ReadConstant(t).Read? {
      FoundAfterSpace(s, Constant(ReadConstant(t).value), n);
    }
  }

  /** A number ends where no digit follows, nor a dot that could be its first. */
  lemma {:induction false} NumberStops(s: string, i: nat, dot: bool)
    requires i <= |s|
    ensures var (n, d) := NumberEnd(s, i, dot);
      n < |s| ==> !IsDigit(s[n]) && (s[n] == '.' && n > 0 ==> d)
    decreases |s| - i
  {
    if NumberEnd(s, i, dot).0 > i {
      NumberStops(s, i + 1, dot || s[i] == '.');
    }
  }

  lemma NumberStarts(s: string)
    requires SkipSpace(s) != ""
    ensures ReadNumber(SkipSpace(s)).Read? ==>
      Starts(s, Constant(ReadNumber(SkipSpace(s)).value), ReadNumber(SkipSpace(s)).rest)
  {
    var t := SkipSpace(s);
    if ReadNumber(t).Read? {
      NumberStops(t, 0, false);
      FoundAfterSpace(s, Constant(ReadNumber(t).value), NumberEnd(t, 0, false).0);
    }
    hide NumberEnd, ParseInteger;
  }

  lemma ValueStarts(s: string)
    ensures ReadValue(s).Read? ==> Starts(s, Constant(ReadValue(s).value), ReadValue(s).rest)
  {
    var t := SkipSpace(s);
    if t != "" {
      if t[0] == '\'' || t[0] == '"' {
        StringStarts(s, t[0]);
      } else if IsAlpha(t[0]) {
        ConstantStarts(s);
      } else {
        NumberStarts(s);
      }
    }
    hide ReadString, ReadConstant, ReadNumber, Starts, SkipSpace;
  }

  // ---------------------------------------------------------------- texts from their tokens

  lemma LaysNext(s: string, t: Token, rest: string, tokens: seq<Token>)
    requires Starts(s, t, rest) && Lays(rest, tokens)
    ensures Lays(s, [t] + tokens)
  {
    assert ([t] + tokens)[1..] == tokens;
    hide Starts;
  }

  lemma LaysNothing(s: string)
    requires ReadEnd(s).Read?
    ensures Lays(s, [])
  {
    assert s[PrefixLength(IsSpace, s)..] == "";
  }

  lemma Slices(blank: string, s: string, i: nat, j: nat)
    requires i <= j <= |s|
    ensures var n, text := |blank|, blank + s;
      text[..n + i] == blank + s[..i] && text[n + i..n + j] == s[i..j] && text[n + j..] == s[j..]
    ensures var text := s + blank;
      text[..i] == s[..i] && text[i..j] == s[i..j] && text[j..] == s[j..] + blank
  {
  }

  lemma BlankJoins(s: string, t: string)
    requires Blank(s) && Blank(t)
    ensures Blank(s + t)
  {
  }

  lemma StartsAfterBlank(blank: string, s: string, t: Token, rest: string)
    requires Blank(blank) && Starts(s, t, rest)
    ensures Starts(blank + s, t, rest)
  {
    var i, j :| StartsAt(s, t, rest, i, j);
    Slices(blank, s, i, j);
    BlankJoins(blank, s[..i]);
    hide Spells, Blank;
    assert StartsAt(blank + s, t, rest, |blank| + i, |blank| + j);
  }

  lemma LaysBefore(blank: string, s: string, tokens: seq<Token>)
    requires Blank(blank) && Lays(s, tokens)
    ensures Lays(blank + s, tokens)
  {
    if tokens != [] {
      var rest :| Starts(s, tokens[0], rest) && Lays(rest, tokens[1..]);
      hide Starts;
      StartsAfterBlank(blank, s, tokens[0], rest);
    }
  }

  lemma EndsBeforeBlank(blank: string, t: Token, piece: string, rest: string)
    requires Blank(blank) && Spells(piece, t) && Ends(t, piece, rest)
    ensures Ends(t, piece, rest + blank)
  {
    if rest == "" && blank != "" {
      assert IsSpace((rest + blank)[0]);
    }
    hide Upper, ParseInteger, Doubled;
  }

  lemma StartsBeforeBlank(blank: string, s: string, t: Token, rest: string)
    requires Blank(blank) && Starts(s, t, rest)
    ensures Starts(s + blank, t, rest + blank)
  {
    var i, j :| StartsAt(s, t, rest, i, j);
    Slices(blank, s, i, j);
    EndsBeforeBlank(blank, t, s[i..j], rest);
    hide Spells, Blank, Ends;
    assert StartsAt(s + blank, t, rest + blank, i, j);
  }

  lemma {:induction false} LaysAfter(blank: string, s: string, tokens: seq<Token>)
    requires Blank(blank) && Lays(s, tokens)
    ensures Lays(s + blank, tokens)
    decreases |tokens|
  {
    if tokens != [] {
      var rest :| Starts(s, tokens[0], rest) && Lays(rest, tokens[1..]);
      hide Starts;
      StartsBeforeBlank(blank, s, tokens[0], rest);
      LaysAfter(blank, rest, tokens[1..]);
    }
  }

  lemma LaysTrimmed(s: string, tokens: seq<Token>)
    requires Lays(Trim(s), tokens)
    ensures Lays(s, tokens)
  {
    var middle, text := SkipSpace(s), Trim(s);
    SpaceParts(s);
    TrimParts(middle);
    assert text == TrimEnd(middle);
    hide *;
    LaysAfter(middle[|text|..], text, tokens);
    LaysBefore(s[..|s| - |middle|], middle, tokens);
  }

  lemma SpaceParts(s: string)
    ensures |SkipSpace(s)| <= |s| && s == s[..|s| - |SkipSpace(s)|] + SkipSpace(s)
    ensures Blank(s[..|s| - |SkipSpace(s)|])
  {
    hide PrefixLength;
  }

  lemma TrimParts(s: string)
    ensures |TrimEnd(s)| <= |s| && s == TrimEnd(s) + s[|TrimEnd(s)|..] && Blank(s[|TrimEnd(s)|..])
  {
    hide TrimEnd;
  }

  // ---------------------------------------------------------------- lists

  /** Whatever an item reads was there, as a token. */
  ghost predicate ItemStarts<T(!new)>(item: string -> Reading<T>, token: T -> Token) {
    forall s :: item(s).Read? ==> Starts(s, token(item(s).value), item(s).rest)
  }

  function Mapped<T>(token: T -> Token, items: seq<T>): (r: seq<Token>)
    ensures |r| == |items| && forall i :: 0 <= i < |r| ==> r[i] == token(items[i])
  {
    seq(|items|, i requires 0 <= i < |items| => token(items[i]))
  }

  lemma SignStarts(c: char, s: string)
    requires StartsWith(SkipSpace(s), c)
    ensures Starts(s, Sign(c), SkipSpace(s)[1..])
  {
    FoundAfterSpace(s, Sign(c), 1);
  }

  /** An item read from a text without its leading spaces starts the text as well. */
  lemma StartsSpaced(s: string, t: Token, rest: string)
    requires Starts(SkipSpace(s), t, rest)
    ensures Starts(s, t, rest)
  {
    SpaceParts(s);
    hide SkipSpace, Starts;
    StartsAfterBlank(s[..|s| - |SkipSpace(s)|], SkipSpace(s), t, rest);
  }

  lemma {:induction false} ItemsLay<T(!new)>(item: string -> Reading<T>, token: T -> Token, s: string,
                                             tokens: seq<Token>)
    returns (comma: bool)
    requires Advances(item) && ItemStarts(item, token)
    requires ReadItems(item, s).Read? && Lays(ReadItems(item, s).rest, tokens)
    ensures Lays(s, ItemTokens(Mapped(token, ReadItems(item, s).value), comma) + tokens)
    decreases |s|
  {
    comma := false;
    var t := SkipSpace(s);
    if StartsWith(t, ')') {
      NoItemsLay(token, s, tokens);
      return;
    }
    var x, after := item(t).value, item(t).rest;
    StartsSpaced(s, token(x), after);
    var u := SkipSpace(after);
    if StartsWith(u, ')') {
      LastItemLays(token, s, x, after, tokens);
      return;
    }
    var xs := ReadItems(item, u[1..]).value;
    assert ReadItems(item, s) == Read([x] + xs, ReadItems(item, u[1..]).rest);
    comma := ItemsLay(item, token, u[1..], tokens);
    if xs == [] {
      comma := true;
    }
    NextItemLays(token, s, x, after, xs, comma, tokens);
  }

  lemma NoItemsLay<T>(token: T -> Token, s: string, tokens: seq<Token>)
    requires StartsWith(SkipSpace(s), ')') && Lays(SkipSpace(s)[1..], tokens)
    ensures Lays(s, ItemTokens(Mapped(token, []), false) + tokens)
  {
    SignStarts(')', s);
    LaysNext(s, Sign(')'), SkipSpace(s)[1..], tokens);
    hide SkipSpace, Lays;
  }

  lemma LastItemLays<T>(token: T -> Token, s: string, x: T, after: string, tokens: seq<Token>)
    requires Starts(s, token(x), after) && StartsWith(SkipSpace(after), ')') && Lays(SkipSpace(after)[1..], tokens)
    ensures Lays(s, ItemTokens(Mapped(token, [x]), false) + tokens)
  {
    hide Lays, Starts, ItemTokens;
    SignStarts(')', after);
    hide SkipSpace;
    LaysNext(after, Sign(')'), SkipSpace(after)[1..], tokens);
    LaysNext(s, token(x), after, [Sign(')')] + tokens);
    OneItemTokens(token, x, tokens);
  }

  lemma NextItemLays<T>(token: T -> Token, s: string, x: T, after: string, xs: seq<T>, comma: bool, tokens: seq<Token>)
    requires Starts(s, token(x), after) && StartsWith(SkipSpace(after), ',') && (xs == [] ==> comma)
    requires Lays(SkipSpace(after)[1..], ItemTokens(Mapped(token, xs), comma) + tokens)
    ensures Lays(s, ItemTokens(Mapped(token, [x] + xs), comma) + tokens)
  {
    var more := ItemTokens(Mapped(token, xs), comma);
    SignStarts(',', after);
    LaysNext(after, Sign(','), SkipSpace(after)[1..], more + tokens);
    LaysNext(s, token(x), after, [Sign(',')] + (more + tokens));
    hide SkipSpace, Lays, Starts, ItemTokens;
    NextTokens(token, x, xs, comma, tokens);
  }

  lemma OneItemTokens<T>(token: T -> Token, x: T, tokens: seq<Token>)
    ensures ItemTokens(Mapped(token, [x]), false) + tokens == [token(x)] + ([Sign(')')] + tokens)
  {
    assert [token(x)] + [] + [Sign(')')] + tokens == [token(x)] + ([Sign(')')] + tokens);
  }

  lemma NextTokens<T>(token: T -> Token, x: T, xs: seq<T>, comma: bool, tokens: seq<Token>)
    requires xs == [] ==> comma
    ensures ItemTokens(Mapped(token, [x] + xs), comma) + tokens ==
      [token(x)] + ([Sign(',')] + (ItemTokens(Mapped(token, xs), comma) + tokens))
  {
    var all, more := Mapped(token, [x] + xs), ItemTokens(Mapped(token, xs), comma);
    assert all[1..] == Mapped(token, xs);
    assert ItemTokens(all, comma) == [token(x), Sign(',')] + more;
    assert [token(x), Sign(',')] + more + tokens == [token(x)] + ([Sign(',')] + (more + tokens));
  }

  lemma ListLays<T(!new)>(item: string -> Reading<T>, token: T -> Token, s: string, tokens: seq<Token>)
    returns (comma: bool)
    requires Advances(item) && ItemStarts(item, token)
    requires ReadList(item, s).Read? && Lays(ReadList(item, s).rest, tokens)
    ensures Lays(s, [Sign('(')] + (ItemTokens(Mapped(token, ReadList(item, s).value), comma) + tokens))
  {
    var t := SkipSpace(s);
    comma := ItemsLay(item, token, t[1..], tokens);
    SignStarts('(', s);
    LaysNext(s, Sign('('), t[1..], ItemTokens(Mapped(token, ReadList(item, s).value), comma) + tokens);
    hide SkipSpace, Lays, Starts, ReadItems, ItemTokens;
  }

  // ---------------------------------------------------------------- statements

  lemma ConditionParts(s: string)
    requires ReadCondition(s).Ok?
    ensures
      var column := ReadIdentifier(s);
      var operator := ReadComparison(column.rest);
      var value := ReadValue(operator.rest);
      column.Read? && operator.Read? && value.Read? &&
      ReadCondition(s).value == (Condition(column.value, operator.value, value.value), value.rest)
  {
    hide ReadIdentifier, ReadComparison, ReadValue;
  }

  lemma ConditionLays(s: string)
    requires ReadCondition(s).Ok? && ReadEnd(ReadCondition(s).value.1).Read?
    ensures Lays(s, ConditionTokens(ReadCondition(s).value.0))
  {
    hide *;
    ConditionParts(s);
    var column := ReadIdentifier(s);
    var operator := ReadComparison(column.rest);
    var value := ReadValue(operator.rest);
    LaysNothing(value.rest);
    IdentifierStarts(s);
    ComparisonStarts(column.rest);
    ValueStarts(operator.rest);
    LaysNext(operator.rest, Constant(value.value), value.rest, []);
    LaysNext(column.rest, Operator(operator.value), operator.rest, [Constant(value.value)] + []);
    LaysNext(s, Name(column.value), column.rest, [Operator(operator.value)] + ([Constant(value.value)] + []));
    ConditionTokensAre(column.value, operator.value, value.value);
  }

  lemma ConditionTokensAre(column: string, operator: ComparisonOp, value: SqlValue)
    ensures ConditionTokens(Condition(column, operator, value)) ==
      [Name(column)] + ([Operator(operator)] + ([Constant(value)] + []))
  {
  }

  lemma UpdateParts(s: string)
    requires ReadUpdate(s).Ok?
    ensures
      var table := ReadIdentifier(s);
      var set_ := ReadKeyword("SET", table.rest);
      var column := ReadIdentifier(set_.rest);
      var equals := ReadEquals(column.rest);
      var value := ReadValue(equals.rest);
      var where_ := ReadKeyword("WHERE", value.rest);
      var condition := ReadCondition(where_.rest);
      table.Read? && set_.Read? && column.Read? && equals.Read? && value.Read? && where_.Read? && condition.Ok? &&
      ReadEnd(condition.value.1).Read? &&
      ReadUpdate(s).value == Update(table.value, column.value, value.value, condition.value.0)
  {
    hide ReadIdentifier, ReadKeyword, ReadEquals, ReadValue, ReadCondition, ReadEnd;
  }

  lemma UpdateTokens(table: string, column: string, value: SqlValue, condition: Condition)
    ensures Tokens(Update(table, column, value, condition), false, false) ==
      [Verb("UPDATE")] + ([Name(table)] + ([Word("SET")] + ([Name(column)] + ([Sign('=')] + ([Constant(value)] +
      ([Word("WHERE")] + ConditionTokens(condition)))))))
  {
    hide ConditionTokens;
  }

  lemma UpdateLays(s: string, text: string)
    requires ReadUpdate(s).Ok? && Starts(text, Verb("UPDATE"), s)
    ensures Lays(text, Tokens(ReadUpdate(s).value, false, false))
  {
    hide *;
    UpdateParts(s);
    var table := ReadIdentifier(s);
    var set_ := ReadKeyword("SET", table.rest);
    var column := ReadIdentifier(set_.rest);
    var equals := ReadEquals(column.rest);
    var value := ReadValue(equals.rest);
    var where_ := ReadKeyword("WHERE", value.rest);
    var condition := ReadCondition(where_.rest).value.0;
    IdentifierStarts(s);
    KeywordStarts("SET", table.rest);
    IdentifierStarts(set_.rest);
    EqualsStarts(column.rest);
    ValueStarts(equals.rest);
    KeywordStarts("WHERE", value.rest);
    ConditionLays(where_.rest);
    var w := [Word("WHERE")] + ConditionTokens(condition);
    var back := [Sign('=')] + ([Constant(value.value)] + w);
    LaysNext(value.rest, Word("WHERE"), where_.rest, ConditionTokens(condition));
    LaysNext(equals.rest, Constant(value.value), value.rest, w);
    LaysNext(column.rest, Sign('='), equals.rest, [Constant(value.value)] + w);
    LaysNext(set_.rest, Name(column.value), column.rest, back);
    LaysNext(table.rest, Word("SET"), set_.rest, [Name(column.value)] + back);
    LaysNext(s, Name(table.value), table.rest, [Word("SET")] + ([Name(column.value)] + back));
    LaysNext(text, Verb("UPDATE"), s, [Name(table.value)] + ([Word("SET")] + ([Name(column.value)] + back)));
    UpdateTokens(table.value, column.value, value.value, condition);
  }

  lemma DeleteParts(s: string)
    requires ReadDelete(s).Ok?
    ensures
      var from := ReadKeyword("FROM", s);
      var table := ReadIdentifier(from.rest);
      var where_ := ReadKeyword("WHERE", table.rest);
      var condition := ReadCondition(where_.rest);
      from.Read? && table.Read? && where_.Read? && condition.Ok? && ReadEnd(condition.value.1).Read? &&
      ReadDelete(s).value == Delete(table.value, condition.value.0)
  {
    hide ReadIdentifier, ReadKeyword, ReadCondition, ReadEnd;
  }

  lemma DeleteTokens(table: string, condition: Condition)
    ensures Tokens(Delete(table, condition), false, false) ==
      [Verb("DELETE")] + ([Word("FROM")] + ([Name(table)] + ([Word("WHERE")] + ConditionTokens(condition))))
  {
    hide ConditionTokens;
  }

  lemma DeleteLays(s: string, text: string)
    requires ReadDelete(s).Ok? && Starts(text, Verb("DELETE"), s)
    ensures Lays(text, Tokens(ReadDelete(s).value, false, false))
  {
    hide *;
    DeleteParts(s);
    var from := ReadKeyword("FROM", s);
    var table := ReadIdentifier(from.rest);
    var where_ := ReadKeyword("WHERE", table.rest);
    var c := ConditionTokens(ReadCondition(where_.rest).value.0);
    KeywordStarts("FROM", s);
    IdentifierStarts(from.rest);
    KeywordStarts("WHERE", table.rest);
    ConditionLays(where_.rest);
    LaysNext(table.rest, Word("WHERE"), where_.rest, c);
    LaysNext(from.rest, Name(table.value), table.rest, [Word("WHERE")] + c);
    LaysNext(s, Word("FROM"), from.rest, [Name(table.value)] + ([Word("WHERE")] + c));
    LaysNext(text, Verb("DELETE"), s, [Word("FROM")] + ([Name(table.value)] + ([Word("WHERE")] + c)));
    DeleteTokens(table.value, ReadCondition(where_.rest).value.0);
  }

  lemma ItemsStart()
    ensures Advances(ReadIdentifier) && Advances(ReadValue)
    ensures ItemStarts(ReadIdentifier, id => Name(id)) && ItemStarts(ReadValue, v => Constant(v))
  {
    IdentifiersAdvance();
    ValuesAdvance();
    forall s: string
      ensures ReadIdentifier(s).Read? ==> Starts(s, Name(ReadIdentifier(s).value), ReadIdentifier(s).rest)
    {
      IdentifierStarts(s);
    }
    forall s: string ensures ReadValue(s).Read? ==> Starts(s, Constant(ReadValue(s).value), ReadValue(s).rest) {
      ValueStarts(s);
    }
    hide ReadIdentifier, ReadValue, Starts;
  }

  lemma InsertLays(s: string, text: string) returns (columnComma: bool, valueComma: bool)
    requires ReadInsert(s).Ok? && Starts(text, Verb("INSERT"), s)
    ensures Lays(text, Tokens(ReadInsert(s).value, columnComma, valueComma))
  {
    ItemsStart();
    var into := ReadKeyword("INTO", s);
    var table := ReadIdentifier(into.rest);
    var columns := ReadList(ReadIdentifier, table.rest);
    var values_ := ReadKeyword("VALUES", columns.rest);
    var values := ReadList(ReadValue, values_.rest);
    LaysNothing(values.rest);
    hide ReadIdentifier, ReadKeyword, ReadList, ReadValue, Lays, Starts, ReadEnd, ItemTokens, Advances, ItemStarts;
    KeywordStarts("INTO", s);
    IdentifierStarts(into.rest);
    KeywordStarts("VALUES", columns.rest);
    valueComma := ListLays(ReadValue, v => Constant(v), values_.rest, []);
    var vs := [Sign('(')] + (ItemTokens(Mapped(v => Constant(v), values.value), valueComma) + []);
    LaysNext(columns.rest, Word("VALUES"), values_.rest, vs);
    columnComma := ListLays(ReadIdentifier, id => Name(id), table.rest, [Word("VALUES")] + vs);
    var cs := [Sign('(')] + (ItemTokens(Mapped(id => Name(id), columns.value), columnComma) + ([Word("VALUES")] + vs));
    LaysNext(into.rest, Name(table.value), table.rest, cs);
    LaysNext(s, Word("INTO"), into.rest, [Name(table.value)] + cs);
    LaysNext(text, Verb("INSERT"), s, [Word("INTO")] + ([Name(table.value)] + cs));
    InsertTokens(table.value, columns.value, values.value, columnComma, valueComma);
  }

  lemma InsertTokens(table: string, columns: seq<string>, values: seq<SqlValue>, columnComma: bool, valueComma: bool)
    ensures
      var vs := [Sign('(')] + (ItemTokens(Mapped(v => Constant(v), values), valueComma) + []);
      var cs := [Sign('(')] + (ItemTokens(Mapped(id => Name(id), columns), columnComma) + ([Word("VALUES")] + vs));
      Tokens(Insert(table, columns, values), columnComma, valueComma) ==
        [Verb("INSERT")] + ([Word("INTO")] + ([Name(table)] + cs))
  {
    assert Mapped(v => Constant(v), values) == Constants(values);
    assert Mapped(id => Name(id), columns) == Names(columns);
    hide ItemTokens;
  }

  lemma TrimmedStart(s: string)
    ensures Trim(s) == "" || !IsSpace(Trim(s)[0])
  {
  }

  /** The verb of an accepted text, and what its rest is read as. */
  lemma AcceptedParts(sql: string)
    requires ReadStatement(sql).Ok?
    ensures
      var text, word := Trim(sql), FirstWord(Trim(sql));
      var verb := ReadKeyword(word, text);
      && verb.Read? && word in {"UPDATE", "INSERT", "DELETE"}
      && (word == "UPDATE" ==> ReadStatement(sql) == ReadUpdate(verb.rest))
      && (word == "INSERT" ==> ReadStatement(sql) == ReadInsert(verb.rest))
      && (word == "DELETE" ==> ReadStatement(sql) == ReadDelete(verb.rest))
  {
    hide Trim, FirstWord, ReadKeyword, ReadUpdate, ReadInsert, ReadDelete;
  }

  /** Every accepted text is a layout of the statement it denotes. */
  lemma AcceptedIsLayout(sql: string) returns (columnComma: bool, valueComma: bool)
    requires ReadStatement(sql).Ok?
    ensures Lays(sql, Tokens(ReadStatement(sql).value, columnComma, valueComma))
  {
    hide *;
    columnComma, valueComma := false, false;
    var text := Trim(sql);
    var word := FirstWord(text);
    AcceptedParts(sql);
    TrimmedStart(sql);
    UpperWords();
    VerbStarts(word, text);
    var rest := ReadKeyword(word, text).rest;
    if word == "UPDATE" {
      UpdateLays(rest, text);
    } else if word == "INSERT" {
      columnComma, valueComma := InsertLays(rest, text);
    } else {
      DeleteLays(rest, text);
    }
    LaysTrimmed(sql, Tokens(ReadStatement(sql).value, columnComma, valueComma));
  }
}
