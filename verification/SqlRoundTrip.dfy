/** Statements as text. Every well-formed statement reads back from its text, and every text that parses has such a
    statement as its meaning. */
module SqlRoundTrip {
  import opened Machine
  import opened Texts
  import opened SqlGrammar

  // ---------------------------------------------------------------- well-formed statements

  predicate IsIdentifier(s: string) {
    s != "" && IsWordStart(s[0]) && forall i :: 0 <= i < |s| ==> IsWordChar(s[i])
  }

  /** A sign or digits, then digits and exactly one dot, with at least one digit. */
  predicate IsFloatText(s: string) {
    && s != "" && (IsDigit(s[0]) || s[0] == '-' || s[0] == '+')
    && NumberEnd(s, 0, false) == (|s|, true)
    && ParseFloat(s).Some?
  }

  predicate IsValue(v: SqlValue) {
    v.Float? ==> IsFloatText(v.text)
  }

  predicate IsCondition(c: Condition) {
    IsIdentifier(c.column) && IsValue(c.value)
  }

  predicate IsStatement(s: Statement) {
    && IsIdentifier(s.table)
    && match s
       case Update(_, column, value, condition) => IsIdentifier(column) && IsValue(value) && IsCondition(condition)
       case Insert(_, columns, values) =>
         && |columns| == |values|
         && (forall c :: c in columns ==> IsIdentifier(c))
         && (forall v :: v in values ==> IsValue(v))
       case Delete(_, condition) => IsCondition(condition)
  }

  // ---------------------------------------------------------------- their text

  function Spaced(token: string, rest: string): string {
    " " + (token + rest)
  }

  function ValueText(v: SqlValue): string {
    match v
    case Integer(i) => SignedDecimal(i)
    case Float(text) => text
    case String(s) => Quoted('\'', s)
    case Boolean(b) => if b then "TRUE" else "FALSE"
    case Null => "NULL"
  }

  function ComparisonText(op: ComparisonOp): string {
    match op
    case Eq => "="
    case Lt => "<"
    case Gt => ">"
    case Le => "<="
    case Ge => ">="
    case Ne => "!="
  }

  function ConditionText(c: Condition): string {
    Spaced(c.column, Spaced(ComparisonText(c.operator), Spaced(ValueText(c.value), "")))
  }

  /** A list after its opening parenthesis, and what follows it. */
  function ItemsText<T>(text: T -> string, items: seq<T>, rest: string): string {
    if items == [] then ")" + rest
    else if |items| == 1 then text(items[0]) + (")" + rest)
    else text(items[0]) + ("," + (" " + ItemsText(text, items[1..], rest)))
  }

  function ColumnText(c: string): string {
    c
  }

  function Verb(s: Statement): string {
    match s
    case Update(_, _, _, _) => "UPDATE"
    case Insert(_, _, _) => "INSERT"
    case Delete(_, _) => "DELETE"
  }

  function Render(s: Statement): string {
    match s
    case Update(table, column, value, condition) =>
      "UPDATE" + Spaced(table, Spaced("SET", Spaced(column, Spaced("=",
        Spaced(ValueText(value), Spaced("WHERE", ConditionText(condition)))))))
    case Insert(table, columns, values) =>
      "INSERT" + Spaced("INTO", Spaced(table, Spaced("(", ItemsText(ColumnText, columns,
        Spaced("VALUES", Spaced("(", ItemsText(ValueText, values, "")))))))
    case Delete(table, condition) =>
      "DELETE" + Spaced("FROM", Spaced(table, Spaced("WHERE", ConditionText(condition))))
  }

  // ---------------------------------------------------------------- tokens read back

  /** No token goes on into the text that follows. */
  predicate Apart(rest: string) {
    rest == "" || rest[0] == ' ' || rest[0] == ',' || rest[0] == ')'
  }

  /** What is in front of a text once spaces are skipped. */
  predicate Front(s: string, token: string, rest: string) {
    SkipSpace(s) == token + rest
  }

  predicate Solid(token: string) {
    token != "" && !IsSpace(token[0])
  }

  lemma SpacedFront(token: string, rest: string)
    requires Solid(token)
    ensures Front(Spaced(token, rest), token, rest)
    ensures StartsWith(Spaced(token, rest), ' ') && Apart(Spaced(token, rest))
  {
    PrefixLengthUnique(IsSpace, Spaced(token, rest), 1);
  }

  lemma TokenFront(token: string, rest: string)
    requires Solid(token)
    ensures Front(token + rest, token, rest)
  {
    PrefixLengthUnique(IsSpace, token + rest, 0);
  }

  lemma SkipMoreSpace(s: string)
    ensures SkipSpace(" " + s) == SkipSpace(s)
  {
    assert (" " + s)[1..] == s;
  }

  lemma KeywordReads(word: string, s: string, rest: string)
    requires Front(s, word, rest) && (rest == "" || !IsWordChar(rest[0]))
    ensures ReadKeyword(word, s) == Read((), rest)
  {
    assert (word + rest)[..|word|] == word && (word + rest)[|word|..] == rest;
  }

  lemma IdentifierReads(id: string, s: string, rest: string)
    requires IsIdentifier(id) && Front(s, id, rest) && (rest == "" || !IsWordChar(rest[0]))
    ensures ReadIdentifier(s) == Read(id, rest)
  {
    PrefixLengthUnique(IsWordChar, id + rest, |id|);
  }

  lemma EqualsReads(s: string, rest: string)
    requires Front(s, "=", rest)
    ensures ReadEquals(s) == Read((), rest)
  {
  }

  lemma ComparisonReads(op: ComparisonOp, s: string, rest: string)
    requires Front(s, ComparisonText(op), rest) && Apart(rest)
    ensures ReadComparison(s) == Read(op, rest)
  {
    var t := ComparisonText(op) + rest;
    assert t[|ComparisonText(op)|..] == rest;
  }

  // ---------------------------------------------------------------- values read back

  /** A literal's body ends where its doubled text does, and reads as the text. */
  lemma {:induction false} DoubledReads(quote: char, s: string, rest: string)
    requires !StartsWith(rest, quote)
    ensures BodyLength(quote, Doubled(quote, s) + ([quote] + rest)) == Some(|Doubled(quote, s)|)
    ensures Undoubled(quote, Doubled(quote, s)) == s
    decreases |s|
  {
    hide *;
    var tail := [quote] + rest;
    if s == "" {
      NothingDoubled(quote, rest);
    } else {
      var inner := Doubled(quote, s[1..]);
      var head := if s[0] == quote then [quote, quote] else [s[0]];
      DoubledHead(quote, s);
      DoubledReads(quote, s[1..], rest);
      HeadReads(quote, s[0], inner + tail);
      HeadReads(quote, s[0], inner);
      assert Doubled(quote, s) + tail == head + (inner + tail);
      assert s == [s[0]] + s[1..];
    }
  }

  lemma NothingDoubled(quote: char, rest: string)
    requires !StartsWith(rest, quote)
    ensures Doubled(quote, "") == "" && Undoubled(quote, "") == ""
    ensures BodyLength(quote, "" + ([quote] + rest)) == Some(0)
  {
    assert "" + ([quote] + rest) == [quote] + rest && ([quote] + rest)[1..] == rest;
  }

  lemma DoubledHead(quote: char, s: string)
    requires s != ""
    ensures Doubled(quote, s) == (if s[0] == quote then [quote, quote] else [s[0]]) + Doubled(quote, s[1..])
  {
  }

  /** One character of a literal's body, doubled if it is the quote. */
  lemma HeadReads(quote: char, c: char, after: string)
    ensures
      var head := if c == quote then [quote, quote] else [c];
      && Undoubled(quote, head + after) == [c] + Undoubled(quote, after)
      && BodyLength(quote, head + after) ==
           if BodyLength(quote, after).Some? then Some(|head| + BodyLength(quote, after).value) else None
  {
    if c == quote {
      var text := [quote, quote] + after;
      assert text[2..] == after && text[1..][0] == quote;
    } else {
      assert ([c] + after)[1..] == after;
    }
  }

  lemma StringReads(v: string, rest: string)
    requires Apart(rest)
    ensures ReadString('\'', ValueText(String(v)) + rest) == Read(String(v), rest)
  {
    var body := Doubled('\'', v);
    var t := ValueText(String(v)) + rest;
    DoubledReads('\'', v, rest);
    assert t[1..] == body + ("'" + rest);
    assert t[1..][..|body|] == body && t[1..][|body| + 1..] == rest;
  }

  /** A number's end does not depend on what follows, when no token goes on. */
  lemma {:induction false} NumberEndApart(s: string, rest: string, i: nat, dot: bool)
    requires i <= |s| && Apart(rest) && NumberEnd(s, i, dot).0 == |s|
    ensures NumberEnd(s + rest, i, dot) == NumberEnd(s, i, dot)
    decreases |s| - i
  {
    if i < |s| {
      assert (s + rest)[i] == s[i];
      if s[i] == '.' && !dot && i > 0 {
        NumberEndApart(s, rest, i + 1, true);
      } else {
        NumberEndApart(s, rest, i + 1, dot);
      }
    }
  }

  lemma {:induction false} DigitsEnd(s: string, i: nat)
    requires i <= |s| && forall j :: i <= j < |s| ==> IsDigit(s[j])
    ensures NumberEnd(s, i, false) == (|s|, false)
    decreases |s| - i
  {
    if i < |s| {
      DigitsEnd(s, i + 1);
    }
  }

  lemma IntegerReads(n: i64, rest: string)
    requires Apart(rest)
    ensures ReadNumber(SignedDecimal(n) + rest) == Read(Integer(n), rest)
  {
    var s := SignedDecimal(n);
    IntegerRoundTrip(n, I64_MIN, I64_MAX);
    assert AllDigits(Decimal(Abs(n)));
    DigitsEnd(s, 1);
    assert NumberEnd(s, 0, false) == NumberEnd(s, 1, false);
    NumberEndApart(s, rest, 0, false);
    assert (s + rest)[..|s|] == s && (s + rest)[|s|..] == rest;
  }

  lemma FloatReads(text: string, rest: string)
    requires Apart(rest) && IsFloatText(text)
    ensures ReadNumber(text + rest) == Read(Float(text), rest)
  {
    NumberEndApart(text, rest, 0, false);
    assert (text + rest)[..|text|] == text && (text + rest)[|text|..] == rest;
  }

  lemma ConstantReads(word: string, rest: string)
    requires word in {"TRUE", "FALSE", "NULL"} && Apart(rest)
    ensures ReadConstant(word + rest) ==
      Read(if word == "TRUE" then Boolean(true) else if word == "FALSE" then Boolean(false) else Null, rest)
  {
    PrefixLengthUnique(IsAlpha, word + rest, |word|);
    assert (word + rest)[..|word|] == word && (word + rest)[|word|..] == rest;
    UpperWords();
  }

  lemma UpperWords()
    ensures Upper("TRUE") == "TRUE" && Upper("FALSE") == "FALSE" && Upper("NULL") == "NULL"
    ensures Upper("UPDATE") == "UPDATE" && Upper("INSERT") == "INSERT" && Upper("DELETE") == "DELETE"
  {
    hide *;
    UpperKeepsCapitals("TRUE");
    UpperKeepsCapitals("FALSE");
    UpperKeepsCapitals("NULL");
    UpperKeepsCapitals("UPDATE");
    UpperKeepsCapitals("INSERT");
    UpperKeepsCapitals("DELETE");
  }

  lemma {:induction false} UpperKeepsCapitals(s: string)
    requires forall i :: 0 <= i < |s| ==> 'A' <= s[i] <= 'Z'
    ensures Upper(s) == s
  {
    if s != "" {
      UpperKeepsCapitals(s[1..]);
    }
  }

  lemma ValueSolid(v: SqlValue)
    requires IsValue(v)
    ensures Solid(ValueText(v))
  {
    if v.Integer? {
      assert IsDigit(Decimal(Abs(v.i))[0]);
    }
  }

  lemma ValueReads(v: SqlValue, s: string, rest: string)
    requires IsValue(v) && Front(s, ValueText(v), rest) && Apart(rest)
    ensures ReadValue(s) == Read(v, rest)
  {
    ValueSolid(v);
    ValueDispatch(s, ValueText(v) + rest);
    ValueFirst(v, rest);
    hide SkipSpace, ReadValue, ReadString, ReadConstant, ReadNumber, SignedDecimal, Doubled, NumberEnd;
    match v
    case Integer(n) => IntegerReads(n, rest);
    case Float(text) => FloatReads(text, rest);
    case String(t) => StringReads(t, rest);
    case Boolean(b) => ConstantReads(ValueText(v), rest);
    case Null => ConstantReads("NULL", rest);
  }

  /** The first character decides what kind of value is read. */
  lemma ValueDispatch(s: string, t: string)
    requires SkipSpace(s) == t && t != ""
    ensures t[0] == '\'' ==> ReadValue(s) == ReadString('\'', t)
    ensures IsAlpha(t[0]) ==> ReadValue(s) == ReadConstant(t)
    ensures IsDigit(t[0]) || t[0] == '-' || t[0] == '+' ==> ReadValue(s) == ReadNumber(t)
  {
    hide SkipSpace, ReadString, ReadConstant, ReadNumber;
  }

  lemma ValueFirst(v: SqlValue, rest: string)
    requires IsValue(v)
    ensures var t := ValueText(v) + rest;
      t != "" &&
      match v
      case Integer(_) => IsDigit(t[0]) || t[0] == '-'
      case Float(_) => IsDigit(t[0]) || t[0] == '-' || t[0] == '+'
      case String(_) => t[0] == '\''
      case Boolean(_) => IsAlpha(t[0])
      case Null => IsAlpha(t[0])
  {
    if v.Integer? {
      assert IsDigit(Decimal(Abs(v.i))[0]);
    }
  }

  // ---------------------------------------------------------------- lists read back

  /** An item whose text reads back wherever it stands apart. */
  ghost predicate ReadsBack<T>(item: string -> Reading<T>, text: T -> string, x: T) {
    && Solid(text(x)) && text(x)[0] != ')'
    && forall s, rest :: Front(s, text(x), rest) && Apart(rest) ==> item(s) == Read(x, rest)
  }

  lemma {:induction false} ItemsRead<T>(item: string -> Reading<T>, text: T -> string, items: seq<T>, rest: string)
    requires Advances(item) && forall x :: x in items ==> ReadsBack(item, text, x)
    ensures ReadItems(item, ItemsText(text, items, rest)) == Read(items, rest)
    decreases |items|
  {
    if items == [] {
      TokenFront(")", rest);
      assert (")" + rest)[1..] == rest;
    } else {
      hide ReadItems, ReadsBack;
      var x := items[0];
      assert x in items && ReadsBack(item, text, x);
      if |items| == 1 {
        assert items == [x];
        LastItemReads(item, text, x, rest);
      } else {
        ItemsRead(item, text, items[1..], rest);
        assert items == [x] + items[1..];
        NextItemReads(item, text, x, items[1..], ItemsText(text, items[1..], rest), rest);
      }
    }
  }

  lemma LastItemReads<T>(item: string -> Reading<T>, text: T -> string, x: T, rest: string)
    requires Advances(item) && ReadsBack(item, text, x)
    ensures ReadItems(item, text(x) + (")" + rest)) == Read([x], rest)
  {
    hide *;
    ItemFront(item, text, x, ")", rest);
    ItemThenEnd(item, text(x) + (")" + rest), x, ")" + rest, rest);
  }

  lemma NextItemReads<T>(item: string -> Reading<T>, text: T -> string, x: T, xs: seq<T>, more: string, rest: string)
    requires Advances(item) && ReadsBack(item, text, x)
    requires ReadItems(item, more) == Read(xs, rest)
    ensures ReadItems(item, text(x) + ("," + (" " + more))) == Read([x] + xs, rest)
  {
    hide *;
    var tail := " " + more;
    ItemFront(item, text, x, ",", tail);
    ItemsSkipSpace(item, more);
    ItemThenComma(item, text(x) + ("," + tail), x, "," + tail, tail, xs, rest);
  }

  ghost predicate ItemRead<T>(item: string -> Reading<T>, s: string, x: T, after: string) {
    !StartsWith(SkipSpace(s), ')') && item(SkipSpace(s)) == Read(x, after)
  }

  /** An item stands in front of its text and a separator. */
  lemma ItemFront<T>(item: string -> Reading<T>, text: T -> string, x: T, separator: string, rest: string)
    requires ReadsBack(item, text, x) && (separator == "," || separator == ")")
    ensures ItemRead(item, text(x) + (separator + rest), x, separator + rest)
    ensures Front(separator + rest, separator, rest)
  {
    hide SkipSpace, Front;
    var after := separator + rest;
    var s := text(x) + after;
    TokenFront(text(x), after);
    TokenFront(separator, rest);
    FrontAgain(s, text(x), after);
    assert Apart(after);
  }

  lemma FrontAgain(s: string, token: string, rest: string)
    requires Solid(token) && Front(s, token, rest)
    ensures Front(SkipSpace(s), token, rest)
    ensures StartsWith(SkipSpace(s), token[0])
  {
    SkipTwice(s);
    hide SkipSpace;
  }

  lemma SkipTwice(s: string)
    ensures SkipSpace(SkipSpace(s)) == SkipSpace(s)
  {
    PrefixLengthUnique(IsSpace, SkipSpace(s), 0);
  }

  lemma ItemThenEnd<T>(item: string -> Reading<T>, s: string, x: T, after: string, rest: string)
    requires Advances(item) && ItemRead(item, s, x, after) && Front(after, ")", rest)
    ensures ReadItems(item, s) == Read([x], rest)
  {
    hide SkipSpace;
    assert (")" + rest)[1..] == rest;
  }

  lemma ItemThenComma<T>(item: string -> Reading<T>, s: string, x: T, after: string, tail: string, xs: seq<T>,
                         rest: string)
    requires Advances(item) && ItemRead(item, s, x, after) && Front(after, ",", tail)
    requires ReadItems(item, tail) == Read(xs, rest)
    ensures ReadItems(item, s) == Read([x] + xs, rest)
  {
    hide SkipSpace;
    assert ("," + tail)[1..] == tail;
  }

  lemma ItemsSkipSpace<T>(item: string -> Reading<T>, s: string)
    requires Advances(item)
    ensures ReadItems(item, " " + s) == ReadItems(item, s)
  {
    SkipMoreSpace(s);
    hide SkipSpace;
  }

  lemma ListReads<T>(item: string -> Reading<T>, text: T -> string, items: seq<T>, rest: string)
    requires Advances(item) && forall x :: x in items ==> ReadsBack(item, text, x)
    ensures ReadList(item, Spaced("(", ItemsText(text, items, rest))) == Read(items, rest)
  {
    ItemsRead(item, text, items, rest);
    SpacedFront("(", ItemsText(text, items, rest));
  }

  lemma IdentifierReadsBack(id: string)
    requires IsIdentifier(id)
    ensures ReadsBack(ReadIdentifier, ColumnText, id)
  {
    forall s, rest | Front(s, id, rest) && Apart(rest) ensures ReadIdentifier(s) == Read(id, rest) {
      IdentifierReads(id, s, rest);
    }
  }

  lemma ValueReadsBack(v: SqlValue)
    requires IsValue(v)
    ensures ReadsBack(ReadValue, ValueText, v)
  {
    ValueSolid(v);
    assert ValueText(v)[0] != ')' by {
      if v.Integer? {
        assert IsDigit(Decimal(Abs(v.i))[0]);
      }
    }
    forall s, rest | Front(s, ValueText(v), rest) && Apart(rest) ensures ReadValue(s) == Read(v, rest) {
      ValueReads(v, s, rest);
    }
  }

  // ---------------------------------------------------------------- statements read back

  lemma ConditionReads(c: Condition)
    requires IsCondition(c)
    ensures ReadCondition(ConditionText(c)) == Ok((c, ""))
  {
    var value := Spaced(ValueText(c.value), "");
    var operator := Spaced(ComparisonText(c.operator), value);
    assert ConditionText(c) == Spaced(c.column, operator);
    ValueSolid(c.value);
    ComparisonSolid(c.operator);
    hide Spaced, ConditionText, ValueText, ComparisonText, ReadIdentifier, ReadComparison;
    hide ReadValue, ReadCondition, SkipSpace, IsValue, Front, Solid;
    IdentifierSolid(c.column);
    SpacedFront(c.column, operator);
    SpacedFront(ComparisonText(c.operator), value);
    SpacedFront(ValueText(c.value), "");
    assert !IsWordChar(' ');
    IdentifierReads(c.column, Spaced(c.column, operator), operator);
    ComparisonReads(c.operator, operator, value);
    ValueReads(c.value, value, "");
    ConditionChain(c, Spaced(c.column, operator), operator, value, "");
  }

  lemma IdentifierSolid(id: string)
    requires IsIdentifier(id)
    ensures Solid(id)
  {
  }

  lemma ComparisonSolid(op: ComparisonOp)
    ensures Solid(ComparisonText(op))
  {
  }

  lemma ConditionChain(c: Condition, s0: string, s1: string, s2: string, rest: string)
    requires ReadIdentifier(s0) == Read(c.column, s1) && ReadComparison(s1) == Read(c.operator, s2)
    requires ReadValue(s2) == Read(c.value, rest)
    ensures ReadCondition(s0) == Ok((c, rest))
  {
    hide ReadIdentifier, ReadComparison, ReadValue;
  }

  lemma NothingLeft()
    ensures ReadEnd("") == Read((), "")
  {
  }

  lemma UpdateChain(table: string, column: string, value: SqlValue, condition: Condition,
                    s0: string, s1: string, s2: string, s3: string, s4: string, s5: string, s6: string, rest: string)
    requires ReadIdentifier(s0) == Read(table, s1) && ReadKeyword("SET", s1) == Read((), s2)
    requires ReadIdentifier(s2) == Read(column, s3) && ReadEquals(s3) == Read((), s4)
    requires ReadValue(s4) == Read(value, s5) && ReadKeyword("WHERE", s5) == Read((), s6)
    requires ReadCondition(s6) == Ok((condition, rest)) && ReadEnd(rest).Read?
    ensures ReadUpdate(s0) == Ok(Update(table, column, value, condition))
  {
    hide ReadIdentifier, ReadKeyword, ReadEquals, ReadValue, ReadCondition, ReadEnd;
  }

  lemma UpdateReads(table: string, column: string, value: SqlValue, condition: Condition)
    requires IsStatement(Update(table, column, value, condition))
    ensures ReadUpdate(Render(Update(table, column, value, condition))[6..]) ==
      Ok(Update(table, column, value, condition))
  {
    var s6 := ConditionText(condition);
    var s5 := Spaced("WHERE", s6);
    var s4 := Spaced(ValueText(value), s5);
    var s3 := Spaced("=", s4);
    var s2 := Spaced(column, s3);
    var s1 := Spaced("SET", s2);
    var s0 := Spaced(table, s1);
    assert Render(Update(table, column, value, condition))[6..] == s0;
    ValueSolid(value);
    hide Spaced, ReadIdentifier, ReadKeyword, ReadEquals, ReadValue, ReadCondition;
    hide ReadUpdate, Render, SkipSpace, ConditionText, ValueText, Front;
    SpacedFront(table, s1);
    SpacedFront("SET", s2);
    SpacedFront(column, s3);
    SpacedFront("=", s4);
    SpacedFront(ValueText(value), s5);
    SpacedFront("WHERE", s6);
    IdentifierReads(table, s0, s1);
    KeywordReads("SET", s1, s2);
    IdentifierReads(column, s2, s3);
    EqualsReads(s3, s4);
    ValueReads(value, s4, s5);
    KeywordReads("WHERE", s5, s6);
    ConditionReads(condition);
    NothingLeft();
    UpdateChain(table, column, value, condition, s0, s1, s2, s3, s4, s5, s6, "");
  }

  lemma InsertReads(table: string, columns: seq<string>, values: seq<SqlValue>)
    requires IsStatement(Insert(table, columns, values))
    ensures ReadInsert(Render(Insert(table, columns, values))[6..]) == Ok(Insert(table, columns, values))
  {
    var s4 := Spaced("(", ItemsText(ValueText, values, ""));
    var s3 := Spaced("VALUES", s4);
    var s2 := Spaced("(", ItemsText(ColumnText, columns, s3));
    var s1 := Spaced(table, s2);
    var s0 := Spaced("INTO", s1);
    assert Render(Insert(table, columns, values))[6..] == s0;
    ItemsReadBack(columns, values);
    hide ReadIdentifier, ReadKeyword, ReadList, ReadInsert, Render, SkipSpace;
    hide Spaced, ItemsText, Advances, ReadsBack, ValueText, Front;
    SpacedFront("INTO", s1);
    SpacedFront(table, s2);
    SpacedFront("(", ItemsText(ColumnText, columns, s3));
    SpacedFront("VALUES", s4);
    SpacedFront("(", ItemsText(ValueText, values, ""));
    KeywordReads("INTO", s0, s1);
    IdentifierReads(table, s1, s2);
    KeywordReads("VALUES", s3, s4);
    ListReads(ReadIdentifier, ColumnText, columns, s3);
    ListReads(ReadValue, ValueText, values, "");
    NothingLeft();
    InsertChain(table, columns, values, s0, s1, s2, s3, s4, "");
  }

  lemma ItemsReadBack(columns: seq<string>, values: seq<SqlValue>)
    requires (forall c :: c in columns ==> IsIdentifier(c)) && (forall v :: v in values ==> IsValue(v))
    ensures Advances(ReadIdentifier) && Advances(ReadValue)
    ensures forall c :: c in columns ==> ReadsBack(ReadIdentifier, ColumnText, c)
    ensures forall v :: v in values ==> ReadsBack(ReadValue, ValueText, v)
  {
    IdentifiersAdvance();
    ValuesAdvance();
    forall c | c in columns ensures ReadsBack(ReadIdentifier, ColumnText, c) { IdentifierReadsBack(c); }
    forall v | v in values ensures ReadsBack(ReadValue, ValueText, v) { ValueReadsBack(v); }
    hide ReadIdentifier, ReadValue, ReadsBack, IsIdentifier, IsValue, ValueText;
  }

  lemma InsertChain(table: string, columns: seq<string>, values: seq<SqlValue>,
                    s0: string, s1: string, s2: string, s3: string, s4: string, rest: string)
    requires Advances(ReadIdentifier) && Advances(ReadValue) && |columns| == |values|
    requires ReadKeyword("INTO", s0) == Read((), s1) && ReadIdentifier(s1) == Read(table, s2)
    requires ReadList(ReadIdentifier, s2) == Read(columns, s3) && ReadKeyword("VALUES", s3) == Read((), s4)
    requires ReadList(ReadValue, s4) == Read(values, rest) && ReadEnd(rest).Read?
    ensures ReadInsert(s0) == Ok(Insert(table, columns, values))
  {
    hide ReadIdentifier, ReadKeyword, ReadList, ReadEnd, Advances;
  }

  lemma DeleteReads(table: string, condition: Condition)
    requires IsStatement(Delete(table, condition))
    ensures ReadDelete(Render(Delete(table, condition))[6..]) == Ok(Delete(table, condition))
  {
    var s3 := ConditionText(condition);
    var s2 := Spaced("WHERE", s3);
    var s1 := Spaced(table, s2);
    var s0 := Spaced("FROM", s1);
    assert Render(Delete(table, condition))[6..] == s0;
    SpacedFront("FROM", s1);
    SpacedFront(table, s2);
    SpacedFront("WHERE", s3);
    KeywordReads("FROM", s0, s1);
    IdentifierReads(table, s1, s2);
    KeywordReads("WHERE", s2, s3);
    ConditionReads(condition);
    NothingLeft();
    hide ReadIdentifier, ReadKeyword, ReadCondition, ReadEnd, Spaced, ConditionText;
  }

  /** A text that starts and ends solidly is not trimmed, and its first word is what stands before its first space. */
  lemma LeadingWord(word: string, rest: string)
    requires word in {"UPDATE", "INSERT", "DELETE"} && StartsWith(rest, ' ') && EndsSolidly(rest)
    ensures Trim(word + rest) == word + rest && FirstWord(word + rest) == word
    ensures ReadKeyword(word, word + rest) == Read((), rest)
  {
    var text := word + rest;
    WordIsUpper(word);
    FrontIsFound(word, rest);
    assert text[..|word|] == word;
    KeywordReads(word, text, rest);
    hide PrefixLength, Upper, ReadKeyword;
  }

  lemma WordIsUpper(word: string)
    requires word in {"UPDATE", "INSERT", "DELETE"}
    ensures |word| == 6 && Upper(word) == word && forall i :: 0 <= i < 6 ==> !IsSpace(word[i])
  {
    UpperWords();
    hide Upper;
  }

  lemma FrontIsFound(word: string, rest: string)
    requires word != "" && (forall i :: 0 <= i < |word| ==> !IsSpace(word[i])) && StartsWith(rest, ' ')
    ensures PrefixLength(c => !IsSpace(c), word + rest) == |word|
    ensures SkipSpace(word + rest) == word + rest
  {
    PrefixLengthUnique(IsSpace, word + rest, 0);
    PrefixLengthUnique(c => !IsSpace(c), word + rest, |word|);
  }

  /** The text of a value does not end in a space. */
  lemma ValueEnds(v: SqlValue)
    requires IsValue(v)
    ensures ValueText(v) != "" && !IsSpace(ValueText(v)[|ValueText(v)| - 1])
  {
    match v
    case Integer(n) =>
      var digits := Decimal(Abs(n));
      assert IsDigit(digits[|digits| - 1]);
    case Float(text) => NumberEndHolds(text, 0, false);
    case String(s) =>
    case Boolean(_) =>
    case Null =>
  }

  lemma {:induction false} NumberEndHolds(s: string, i: nat, dot: bool)
    requires i <= |s|
    ensures forall j :: i <= j < NumberEnd(s, i, dot).0 ==> !IsSpace(s[j])
    decreases |s| - i
  {
    if NumberEnd(s, i, dot).0 > i {
      NumberEndHolds(s, i + 1, dot || s[i] == '.');
    }
  }

  predicate EndsSolidly(s: string) {
    s != "" && !IsSpace(s[|s| - 1])
  }

  lemma SpacedEnds(token: string, rest: string)
    requires EndsSolidly(rest) || (rest == "" && EndsSolidly(token))
    ensures EndsSolidly(Spaced(token, rest)) && StartsWith(Spaced(token, rest), ' ')
  {
  }

  lemma ConditionTextEnds(c: Condition)
    requires IsCondition(c)
    ensures EndsSolidly(ConditionText(c))
  {
    var value := Spaced(ValueText(c.value), "");
    var operator := Spaced(ComparisonText(c.operator), value);
    ValueEnds(c.value);
    SpacedEnds(ValueText(c.value), "");
    SpacedEnds(ComparisonText(c.operator), value);
    SpacedEnds(c.column, operator);
  }

  lemma RenderShape(s: Statement)
    requires IsStatement(s)
    ensures |Render(s)| > 6 && Render(s) == Verb(s) + Render(s)[6..]
    ensures StartsWith(Render(s)[6..], ' ') && EndsSolidly(Render(s)[6..])
  {
    match s
    case Update(table, column, value, condition) =>
      var s6 := ConditionText(condition);
      var s5 := Spaced("WHERE", s6);
      var s4 := Spaced(ValueText(value), s5);
      var s3 := Spaced("=", s4);
      var s2 := Spaced(column, s3);
      var s1 := Spaced("SET", s2);
      ConditionTextEnds(condition);
      SpacedEnds("WHERE", s6);
      SpacedEnds(ValueText(value), s5);
      SpacedEnds("=", s4);
      SpacedEnds(column, s3);
      SpacedEnds("SET", s2);
      SpacedEnds(table, s1);
      assert Render(s)[6..] == Spaced(table, s1);
    case Insert(table, columns, values) =>
      var s4 := Spaced("(", ItemsText(ValueText, values, ""));
      var s3 := Spaced("VALUES", s4);
      var s2 := Spaced("(", ItemsText(ColumnText, columns, s3));
      var s1 := Spaced(table, s2);
      ItemsTextEnds(ValueText, values, "");
      SpacedEnds("(", ItemsText(ValueText, values, ""));
      SpacedEnds("VALUES", s4);
      ItemsTextEnds(ColumnText, columns, s3);
      SpacedEnds("(", ItemsText(ColumnText, columns, s3));
      SpacedEnds(table, s2);
      SpacedEnds("INTO", s1);
      assert Render(s)[6..] == Spaced("INTO", s1);
    case Delete(table, condition) =>
      var s3 := ConditionText(condition);
      var s2 := Spaced("WHERE", s3);
      var s1 := Spaced(table, s2);
      ConditionTextEnds(condition);
      SpacedEnds("WHERE", s3);
      SpacedEnds(table, s2);
      SpacedEnds("FROM", s1);
      assert Render(s)[6..] == Spaced("FROM", s1);
  }

  lemma {:induction false} ItemsTextEnds<T>(text: T -> string, items: seq<T>, rest: string)
    requires rest == "" || EndsSolidly(rest)
    ensures EndsSolidly(ItemsText(text, items, rest))
    decreases |items|
  {
    if |items| > 1 {
      ItemsTextEnds(text, items[1..], rest);
    }
  }

  /** The leading word decides what the rest is read as. */
  lemma DispatchOnWord(text: string, word: string, rest: string)
    requires Trim(text) == text && text != "" && FirstWord(text) == word && ReadKeyword(word, text) == Read((), rest)
    ensures word == "UPDATE" ==> ReadStatement(text) == ReadUpdate(rest)
    ensures word == "INSERT" ==> ReadStatement(text) == ReadInsert(rest)
    ensures word == "DELETE" ==> ReadStatement(text) == ReadDelete(rest)
  {
    hide Trim, FirstWord, ReadKeyword, ReadUpdate, ReadInsert, ReadDelete;
  }

  /** Every well-formed statement reads back from its text. */
  lemma RoundTrip(s: Statement)
    requires IsStatement(s)
    ensures ReadStatement(Render(s)) == Ok(s)
  {
    hide *;
    RenderShape(s);
    var text := Render(s);
    var rest := text[6..];
    VerbIs(s);
    LeadingWordOf(Verb(s), text, rest);
    DispatchOnWord(text, Verb(s), rest);
    match s
    case Update(table, column, value, condition) => UpdateReads(table, column, value, condition);
    case Insert(table, columns, values) => InsertReads(table, columns, values);
    case Delete(table, condition) => DeleteReads(table, condition);
  }

  lemma VerbIs(s: Statement)
    ensures Verb(s) == if s.Update? then "UPDATE" else if s.Insert? then "INSERT" else "DELETE"
  {
  }

  lemma LeadingWordOf(word: string, text: string, rest: string)
    requires word in {"UPDATE", "INSERT", "DELETE"} && text == word + rest
    requires StartsWith(rest, ' ') && EndsSolidly(rest)
    ensures Trim(text) == text && FirstWord(text) == word && ReadKeyword(word, text) == Read((), rest)
  {
    LeadingWord(word, rest);
  }

  // ---------------------------------------------------------------- what parses is well-formed

  lemma IdentifierIsRead(s: string)
    ensures ReadIdentifier(s).Read? ==> IsIdentifier(ReadIdentifier(s).value)
  {
    var t := SkipSpace(s);
    if ReadIdentifier(s).Read? {
      assert PrefixLength(IsWordChar, t) > 0;
    }
  }

  /** The characters before a number's end have that end by themselves. */
  lemma {:induction false} NumberEndOfPrefix(s: string, i: nat, dot: bool)
    requires i <= |s|
    ensures NumberEnd(s[..NumberEnd(s, i, dot).0], i, dot) == NumberEnd(s, i, dot)
    decreases |s| - i
  {
    var end := NumberEnd(s, i, dot).0;
    if end > i {
      NumberEndOfPrefix(s, i + 1, dot || s[i] == '.');
    }
  }

  lemma ValueIsRead(s: string)
    ensures ReadValue(s).Read? ==> IsValue(ReadValue(s).value)
  {
    if ReadValue(s).Read? && ReadValue(s).value.Float? {
      NumberEndOfPrefix(SkipSpace(s), 0, false);
    }
  }

  lemma {:induction false} ItemsAreRead<T(!new)>(item: string -> Reading<T>, ok: T -> bool, s: string)
    requires Advances(item) && forall t :: item(t).Read? ==> ok(item(t).value)
    ensures ReadItems(item, s).Read? ==> forall x :: x in ReadItems(item, s).value ==> ok(x)
    decreases |s|
  {
    var t := SkipSpace(s);
    if !StartsWith(t, ')') && item(t).Read? {
      var u := SkipSpace(item(t).rest);
      if StartsWith(u, ',') {
        ItemsAreRead(item, ok, u[1..]);
      }
    }
  }

  lemma ListsAreRead(s: string)
    requires Advances(ReadIdentifier) && Advances(ReadValue)
    ensures ReadList(ReadIdentifier, s).Read? ==> forall c :: c in ReadList(ReadIdentifier, s).value ==> IsIdentifier(c)
    ensures ReadList(ReadValue, s).Read? ==> forall v :: v in ReadList(ReadValue, s).value ==> IsValue(v)
  {
    forall t: string ensures ReadIdentifier(t).Read? ==> IsIdentifier(ReadIdentifier(t).value) {
      IdentifierIsRead(t);
    }
    forall t: string ensures ReadValue(t).Read? ==> IsValue(ReadValue(t).value) {
      ValueIsRead(t);
    }
    var t := SkipSpace(s);
    if StartsWith(t, '(') {
      ItemsAreRead(ReadIdentifier, IsIdentifier, t[1..]);
      ItemsAreRead(ReadValue, IsValue, t[1..]);
    }
    hide ReadIdentifier, ReadValue, ReadItems, IsIdentifier, IsValue;
  }

  lemma ConditionIsRead(s: string)
    ensures ReadCondition(s).Ok? ==> IsCondition(ReadCondition(s).value.0)
  {
    IdentifierIsRead(s);
    if ReadCondition(s).Ok? {
      ValueIsRead(ReadComparison(ReadIdentifier(s).rest).rest);
    }
    hide ReadIdentifier, ReadComparison, ReadValue, IsIdentifier, IsValue;
  }

  lemma UpdateIsStatement(s: string)
    ensures ReadUpdate(s).Ok? ==> IsStatement(ReadUpdate(s).value)
  {
    hide ReadIdentifier, ReadValue, ReadCondition, ReadKeyword, ReadEquals, ReadEnd, IsIdentifier, IsValue, IsCondition;
    if ReadUpdate(s).Ok? {
      var table := ReadIdentifier(s);
      var set_ := ReadKeyword("SET", table.rest);
      var column := ReadIdentifier(set_.rest);
      var equals := ReadEquals(column.rest);
      var value := ReadValue(equals.rest);
      var where_ := ReadKeyword("WHERE", value.rest);
      IdentifierIsRead(s);
      IdentifierIsRead(set_.rest);
      ValueIsRead(equals.rest);
      ConditionIsRead(where_.rest);
    }
  }

  lemma InsertIsStatement(s: string)
    ensures ReadInsert(s).Ok? ==> IsStatement(ReadInsert(s).value)
  {
    hide ReadIdentifier, ReadValue, ReadList, ReadKeyword, ReadEnd, IsIdentifier, IsValue, Advances;
    IdentifiersAdvance();
    ValuesAdvance();
    if ReadInsert(s).Ok? {
      var table := ReadIdentifier(ReadKeyword("INTO", s).rest);
      var columns := ReadList(ReadIdentifier, table.rest);
      IdentifierIsRead(ReadKeyword("INTO", s).rest);
      ListsAreRead(table.rest);
      ListsAreRead(ReadKeyword("VALUES", columns.rest).rest);
    }
  }

  lemma DeleteIsStatement(s: string)
    ensures ReadDelete(s).Ok? ==> IsStatement(ReadDelete(s).value)
  {
    hide ReadIdentifier, ReadCondition, ReadKeyword, ReadEnd, IsIdentifier, IsCondition;
    if ReadDelete(s).Ok? {
      var from := ReadKeyword("FROM", s);
      var table := ReadIdentifier(from.rest);
      var where_ := ReadKeyword("WHERE", table.rest);
      IdentifierIsRead(from.rest);
      ConditionIsRead(where_.rest);
    }
  }

  /** Whatever text parses, it denotes a well-formed statement. */
  lemma ParsedIsStatement(sql: string)
    ensures ReadStatement(sql).Ok? ==> IsStatement(ReadStatement(sql).value)
  {
    forall s ensures ReadUpdate(s).Ok? ==> IsStatement(ReadUpdate(s).value) {
      UpdateIsStatement(s);
    }
    forall s ensures ReadInsert(s).Ok? ==> IsStatement(ReadInsert(s).value) {
      InsertIsStatement(s);
    }
    forall s ensures ReadDelete(s).Ok? ==> IsStatement(ReadDelete(s).value) {
      DeleteIsStatement(s);
    }
    hide ReadUpdate, ReadInsert, ReadDelete, ReadKeyword, FirstWord, Trim, IsStatement;
  }

  /** So the text of a parsed statement is a normal form: it parses to the same statement as the original did. */
  lemma NormalForm(sql: string)
    requires ReadStatement(sql).Ok?
    ensures ReadStatement(Render(ReadStatement(sql).value)) == ReadStatement(sql)
  {
    ParsedIsStatement(sql);
    RoundTrip(ReadStatement(sql).value);
  }
}
