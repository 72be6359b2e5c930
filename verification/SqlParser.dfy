/** The handwritten parser of the debug journal: a tokenizer that moves a position over its input, and the three
    statement parsers on top of it. */
module SqlParsers {
  import opened Machine
  import opened Texts
  import opened SqlGrammar

  /** A tokenizer call that met a reading: the value and the text left, or nothing. */
  ghost predicate Met<T>(reading: Reading<T>, r: Option<T>, rest: string) {
    match reading
    case Read(v, after) => r == Some(v) && rest == after
    case Unread => r.None?
  }

  /** Suffixes of a text at a position. */
  lemma Onward(s: string, i: nat, n: nat)
    requires i + n <= |s|
    ensures s[i..][n..] == s[i + n..]
    ensures |s[i..]| == |s| - i
    ensures i < |s| ==> s[i..][0] == s[i]
  {
  }

  /** Where a literal's body from a position on is closed. */
  ghost function CloseAt(quote: char, s: string, i: nat): Option<nat>
    requires i <= |s|
  {
    match BodyLength(quote, s[i..])
    case Some(n) => Some(i + n)
    case None => None
  }

  lemma CloseAtStep(quote: char, s: string, i: nat)
    requires i <= |s|
    ensures i == |s| ==> CloseAt(quote, s, i).None?
    ensures i < |s| && s[i] != quote ==> CloseAt(quote, s, i) == CloseAt(quote, s, i + 1)
    ensures i + 1 < |s| && s[i] == quote && s[i + 1] == quote ==> CloseAt(quote, s, i) == CloseAt(quote, s, i + 2)
    ensures i < |s| && s[i] == quote && (i + 1 == |s| || s[i + 1] != quote) ==> CloseAt(quote, s, i) == Some(i)
  {
    if i < |s| {
      Onward(s, i, 1);
    }
    if i + 1 < |s| {
      Onward(s, i, 2);
      Onward(s, i + 1, 0);
    }
  }

  ghost function BodyRead(quote: char, body: string, n: nat): Reading<SqlValue>
    requires n < |body|
  {
    Read(String(Undoubled(quote, body[..n])), body[n + 1..])
  }

  lemma ReadStringByBody(quote: char, s: string)
    requires StartsWith(s, quote)
    ensures BodyLength(quote, s[1..]).Some? ==>
      ReadString(quote, s) == BodyRead(quote, s[1..], BodyLength(quote, s[1..]).value)
    ensures BodyLength(quote, s[1..]).None? ==> ReadString(quote, s).Unread?
  {
  }

  lemma BodySlices(s: string, start: nat, end: nat)
    requires start <= end < |s|
    ensures s[start..][..end - start] == s[start..end]
    ensures s[start..][end - start + 1..] == s[end + 1..]
  {
  }

  /** Items read earlier in front of a list that is still to be read. */
  ghost function Prefixed<T>(before: seq<T>, reading: Reading<seq<T>>): Reading<seq<T>> {
    match reading
    case Read(xs, rest) => Read(before + xs, rest)
    case Unread => Unread
  }

  lemma PrefixedByNothing<T>(reading: Reading<seq<T>>)
    ensures Prefixed([], reading) == reading
  {
    if reading.Read? {
      assert [] + reading.value == reading.value;
    }
  }

  /** One round of reading items: the list ends, or an item and a comma or the end follow, or the list is broken. */
  lemma ItemsRound<T>(item: string -> Reading<T>, before: seq<T>, s: string)
    requires Advances(item)
    ensures StartsWith(SkipSpace(s), ')') ==> Prefixed(before, ReadItems(item, s)) == Read(before, SkipSpace(s)[1..])
    ensures !StartsWith(SkipSpace(s), ')') && item(SkipSpace(s)).Unread? ==> ReadItems(item, s).Unread?
    ensures !StartsWith(SkipSpace(s), ')') && item(SkipSpace(s)).Read? ==>
      ItemFollowed(item, before + [item(SkipSpace(s)).value], SkipSpace(item(SkipSpace(s)).rest),
        Prefixed(before, ReadItems(item, s)))
  {
    var t := SkipSpace(s);
    assert before + [] == before;
    if !StartsWith(t, ')') && item(t).Read? {
      var u := SkipSpace(item(t).rest);
      if StartsWith(u, ',') && ReadItems(item, u[1..]).Read? {
        var xs := ReadItems(item, u[1..]).value;
        assert before + ([item(t).value] + xs) == before + [item(t).value] + xs;
      }
    }
  }

  /** What reading comes to when an item has been read and this text is left. */
  ghost predicate ItemFollowed<T>(item: string -> Reading<T>, items: seq<T>, u: string, reading: Reading<seq<T>>)
    requires Advances(item)
  {
    && (StartsWith(u, ',') ==> reading == Prefixed(items, ReadItems(item, u[1..])))
    && (StartsWith(u, ')') ==> reading == Read(items, u[1..]))
    && (!StartsWith(u, ',') && !StartsWith(u, ')') ==> reading.Unread?)
  }

  class Tokenizer {
    const input: string
    var pos: nat

    ghost predicate Valid()
      reads this
    {
      pos <= |input|
    }

    function Remaining(): string
      reads this
      requires Valid()
    {
      input[pos..]
    }

    constructor (text: string)
      ensures Valid() && input == text && pos == 0
      ensures Remaining() == text
    {
      input := text;
      pos := 0;
    }

    method SkipWhitespace()
      requires Valid()
      modifies this`pos
      ensures Valid() && old(pos) <= pos
      ensures Remaining() == SkipSpace(old(Remaining()))
    {
      while pos < |input| && IsSpace(input[pos])
        invariant old(pos) <= pos <= |input|
        invariant forall i :: old(pos) <= i < pos ==> IsSpace(input[i])
      {
        pos := pos + 1;
      }
      var n := pos - old(pos);
      Onward(input, old(pos), n);
      PrefixLengthUnique(IsSpace, input[old(pos)..], n);
    }

    /** Step over characters that are there. */
    method Advance(n: nat)
      requires Valid() && n <= |Remaining()|
      modifies this`pos
      ensures Valid() && pos == old(pos) + n
      ensures Remaining() == old(Remaining())[n..]
    {
      Onward(input, pos, n);
      pos := pos + n;
    }

    method EnsureFinished() returns (r: Option<()>)
      requires Valid()
      modifies this`pos
      ensures Valid() && old(pos) <= pos
      ensures Met(ReadEnd(old(Remaining())), r, Remaining())
      ensures r.Some? <==> pos == |input|
    {
      SkipWhitespace();
      r := if pos == |input| then Some(()) else None;
    }

    method PeekChar() returns (r: Option<char>)
      requires Valid()
      modifies this`pos
      ensures Valid() && old(pos) <= pos
      ensures Remaining() == SkipSpace(old(Remaining()))
      ensures r == if Remaining() == "" then None else Some(Remaining()[0])
    {
      SkipWhitespace();
      r := if pos < |input| then Some(input[pos]) else None;
    }

    method ConsumeKeyword(word: string) returns (r: Option<()>)
      requires Valid()
      modifies this`pos
      ensures Valid() && old(pos) <= pos
      ensures Met(ReadKeyword(word, old(Remaining())), r, Remaining())
    {
      SkipWhitespace();
      var remaining := Remaining();
      if |remaining| >= |word| && Upper(remaining[..|word|]) == Upper(word) {
        if |remaining| == |word| || !IsWordChar(remaining[|word|]) {
          Advance(|word|);
          return Some(());
        }
      }
      r := None;
    }

    method ConsumeEquals() returns (r: Option<()>)
      requires Valid()
      modifies this`pos
      ensures Valid() && old(pos) <= pos
      ensures Met(ReadEquals(old(Remaining())), r, Remaining())
    {
      SkipWhitespace();
      if StartsWith(Remaining(), '=') {
        Advance(1);
        return Some(());
      }
      r := None;
    }

    method NextIdentifier() returns (r: Option<string>)
      requires Valid()
      modifies this`pos
      ensures Valid() && old(pos) <= pos
      ensures Met(ReadIdentifier(old(Remaining())), r, Remaining())
    {
      SkipWhitespace();
      var remaining := Remaining();
      if remaining == "" || !IsWordStart(remaining[0]) {
        return None;
      }
      var end := PrefixLength(IsWordChar, remaining);
      Advance(end);
      r := Some(remaining[..end]);
    }

    method NextComparisonOp() returns (r: Option<ComparisonOp>)
      requires Valid()
      modifies this`pos
      ensures Valid() && old(pos) <= pos
      ensures Met(ReadComparison(old(Remaining())), r, Remaining())
    {
      SkipWhitespace();
      var remaining := Remaining();
      if "<=" <= remaining {
        Advance(2);
        r := Some(Le);
      } else if ">=" <= remaining {
        Advance(2);
        r := Some(Ge);
      } else if "!=" <= remaining || "<>" <= remaining {
        Advance(2);
        r := Some(Ne);
      } else if StartsWith(remaining, '<') {
        Advance(1);
        r := Some(Lt);
      } else if StartsWith(remaining, '>') {
        Advance(1);
        r := Some(Gt);
      } else if StartsWith(remaining, '=') {
        Advance(1);
        r := Some(Eq);
      } else {
        r := None;
      }
    }

    method NextValue() returns (r: Option<SqlValue>)
      requires Valid()
      modifies this`pos
      ensures Valid() && old(pos) <= pos
      ensures Met(ReadValue(old(Remaining())), r, Remaining())
    {
      SkipWhitespace();
      var remaining := Remaining();
      if remaining == "" {
        r := None;
      } else if remaining[0] == '\'' || remaining[0] == '"' {
        r := ParseStringLiteral(remaining[0]);
      } else if IsAlpha(remaining[0]) {
        r := ParseKeywordValue();
      } else if IsDigit(remaining[0]) || remaining[0] == '-' || remaining[0] == '+' {
        r := ParseNumber();
      } else {
        r := None;
      }
    }

    method ParseStringLiteral(quote: char) returns (r: Option<SqlValue>)
      requires Valid() && StartsWith(Remaining(), quote)
      modifies this`pos
      ensures Valid() && old(pos) <= pos
      ensures Met(ReadString(quote, old(Remaining())), r, Remaining())
    {
      ReadStringByBody(quote, Remaining());
      hide BodyLength, Undoubled, ReadString, StartsWith;
      Advance(1);
      var start := pos;
      var closed := FindClosingQuote(quote);
      if !closed {
        return None;
      }
      BodySlices(input, start, pos);
      var value := input[start..pos];
      Advance(1);
      r := Some(String(Undoubled(quote, value)));
    }

    /** The scan of a literal's body: it stops at the closing quote, stepping over doubled ones. */
    method FindClosingQuote(quote: char) returns (closed: bool)
      requires Valid()
      modifies this`pos
      ensures Valid() && old(pos) <= pos
      ensures CloseAt(quote, input, old(pos)) == if closed then Some(pos) else None
      ensures closed ==> pos < |input|
    {
      hide CloseAt;
      while pos < |input|
        invariant old(pos) <= pos <= |input|
        invariant CloseAt(quote, input, old(pos)) == CloseAt(quote, input, pos)
      {
        CloseAtStep(quote, input, pos);
        if input[pos] == quote {
          if pos + 1 < |input| && input[pos + 1] == quote {
            pos := pos + 2;
          } else {
            return true;
          }
        } else {
          pos := pos + 1;
        }
      }
      CloseAtStep(quote, input, pos);
      closed := false;
    }

    method ParseKeywordValue() returns (r: Option<SqlValue>)
      requires Valid()
      modifies this`pos
      ensures Valid() && old(pos) <= pos
      ensures Met(ReadConstant(old(Remaining())), r, Remaining())
    {
      var remaining := Remaining();
      var length := PrefixLength(IsAlpha, remaining);
      var word := Upper(remaining[..length]);
      if word == "TRUE" {
        Advance(length);
        r := Some(Boolean(true));
      } else if word == "FALSE" {
        Advance(length);
        r := Some(Boolean(false));
      } else if word == "NULL" {
        Advance(length);
        r := Some(Null);
      } else {
        r := None;
      }
    }

    method ParseNumber() returns (r: Option<SqlValue>)
      requires Valid() && Remaining() != ""
      modifies this`pos
      ensures Valid() && old(pos) <= pos
      ensures Met(ReadNumber(old(Remaining())), r, Remaining())
    {
      var remaining := Remaining();
      var end := 0;
      var hasDot := false;
      while end < |remaining|
        invariant end <= |remaining|
        invariant NumberEnd(remaining, end, hasDot) == NumberEnd(remaining, 0, false)
      {
        var c := remaining[end];
        if IsDigit(c) {
          end := end + 1;
        } else if c == '.' && !hasDot && end > 0 {
          hasDot := true;
          end := end + 1;
        } else if (c == '-' || c == '+') && end == 0 {
          end := end + 1;
        } else {
          break;
        }
      }
      assert NumberEnd(remaining, 0, false) == (end, hasDot);
      if end == 0 || (end == 1 && !IsDigit(remaining[0])) {
        return None;
      }
      Advance(end);
      if hasDot {
        var text := ParseFloat(remaining[..end]);
        r := if text.Some? then Some(Float(text.value)) else None;
      } else {
        var n := ParseInteger(remaining[..end], I64_MIN, I64_MAX);
        r := if n.Some? then Some(Integer(n.value)) else None;
      }
    }

    method NextParenList() returns (r: Option<seq<string>>)
      requires Valid()
      requires Advances(ReadIdentifier)
      modifies this`pos
      ensures Valid() && old(pos) <= pos
      ensures Met(ReadList(ReadIdentifier, old(Remaining())), r, Remaining())
    {
      SkipWhitespace();
      if !StartsWith(Remaining(), '(') {
        return None;
      }
      Advance(1);
      r := ItemsToParen();
    }

    /** The identifiers of a list up to its closing parenthesis. */
    method ItemsToParen() returns (r: Option<seq<string>>)
      requires Valid()
      requires Advances(ReadIdentifier)
      modifies this`pos
      ensures Valid() && old(pos) <= pos
      ensures Met(ReadItems(ReadIdentifier, old(Remaining())), r, Remaining())
    {
      ghost var body := Remaining();
      var items: seq<string> := [];
      PrefixedByNothing(ReadItems(ReadIdentifier, body));
      hide ReadItems, ReadIdentifier, SkipSpace, Prefixed;
      while true
        invariant Valid() && old(pos) <= pos
        invariant Prefixed(items, ReadItems(ReadIdentifier, Remaining())) == ReadItems(ReadIdentifier, body)
        decreases |input| - pos
      {
        ItemsRound(ReadIdentifier, items, Remaining());
        var next := PeekChar();
        if next == Some(')') {
          Advance(1);
          break;
        }
        var ident := NextIdentifier();
        if ident.None? {
          return None;
        }
        items := items + [ident.value];
        next := PeekChar();
        if next == Some(',') {
          Advance(1);
        } else if next == Some(')') {
          Advance(1);
          break;
        } else {
          return None;
        }
      }
      r := Some(items);
    }

    method NextParenValues() returns (r: Option<seq<SqlValue>>)
      requires Valid()
      requires Advances(ReadValue)
      modifies this`pos
      ensures Valid() && old(pos) <= pos
      ensures Met(ReadList(ReadValue, old(Remaining())), r, Remaining())
    {
      SkipWhitespace();
      if !StartsWith(Remaining(), '(') {
        return None;
      }
      Advance(1);
      r := ValuesToParen();
    }

    /** The values of a list up to its closing parenthesis. */
    method ValuesToParen() returns (r: Option<seq<SqlValue>>)
      requires Valid()
      requires Advances(ReadValue)
      modifies this`pos
      ensures Valid() && old(pos) <= pos
      ensures Met(ReadItems(ReadValue, old(Remaining())), r, Remaining())
    {
      ghost var body := Remaining();
      var values: seq<SqlValue> := [];
      PrefixedByNothing(ReadItems(ReadValue, body));
      hide ReadItems, ReadValue, SkipSpace, Prefixed;
      while true
        invariant Valid() && old(pos) <= pos
        invariant Prefixed(values, ReadItems(ReadValue, Remaining())) == ReadItems(ReadValue, body)
        decreases |input| - pos
      {
        ItemsRound(ReadValue, values, Remaining());
        var next := PeekChar();
        if next == Some(')') {
          Advance(1);
          break;
        }
        var value := NextValue();
        if value.None? {
          return None;
        }
        values := values + [value.value];
        next := PeekChar();
        if next == Some(',') {
          Advance(1);
        } else if next == Some(')') {
          Advance(1);
          break;
        } else {
          return None;
        }
      }
      r := Some(values);
    }
  }

  // ---------------------------------------------------------------- statements

  method ParseWhereClause(tokens: Tokenizer) returns (r: Parsed<Condition>)
    requires tokens.Valid()
    modifies tokens`pos
    ensures tokens.Valid() && old(tokens.pos) <= tokens.pos
    ensures match ReadCondition(old(tokens.Remaining()))
            case Ok((c, rest)) => r == Ok(c) && tokens.Remaining() == rest
            case Err(e) => r == Err(e)
  {
    var column := tokens.NextIdentifier();
    if column.None? { return Err(Expected(ColumnName)); }
    var operator := tokens.NextComparisonOp();
    if operator.None? { return Err(Expected(Comparison)); }
    var value := tokens.NextValue();
    if value.None? { return Err(Expected(Value)); }
    r := Ok(Condition(column.value, operator.value, value.value));
  }

  method ParseUpdate(afterUpdate: string) returns (r: Parsed<Statement>)
    ensures r == ReadUpdate(afterUpdate)
  {
    hide ReadIdentifier, ReadKeyword, ReadEquals, ReadValue, ReadCondition, ReadEnd;
    var tokens := new Tokenizer(afterUpdate);
    var table := tokens.NextIdentifier();
    if table.None? { return Err(Expected(TableName)); }
    var set_ := tokens.ConsumeKeyword("SET");
    if set_.None? { return Err(Expected(Keyword("SET"))); }
    var column := tokens.NextIdentifier();
    if column.None? { return Err(Expected(ColumnName)); }
    var equals := tokens.ConsumeEquals();
    if equals.None? { return Err(Expected(Equals)); }
    var value := tokens.NextValue();
    if value.None? { return Err(Expected(Value)); }
    var where_ := tokens.ConsumeKeyword("WHERE");
    if where_.None? { return Err(Expected(Keyword("WHERE"))); }
    var condition := ParseWhereClause(tokens);
    if condition.Err? { return Err(condition.error); }
    var finished := tokens.EnsureFinished();
    if finished.None? { return Err(Expected(End)); }
    r := Ok(Update(table.value, column.value, value.value, condition.value));
  }

  method ParseInsert(afterInsert: string) returns (r: Parsed<Statement>)
    ensures r == ReadInsert(afterInsert)
  {
    IdentifiersAdvance();
    ValuesAdvance();
    hide ReadIdentifier, ReadKeyword, ReadList, ReadEnd, Advances;
    var tokens := new Tokenizer(afterInsert);
    var into := tokens.ConsumeKeyword("INTO");
    if into.None? { return Err(Expected(Keyword("INTO"))); }
    var table := tokens.NextIdentifier();
    if table.None? { return Err(Expected(TableName)); }
    var columns := tokens.NextParenList();
    if columns.None? { return Err(Expected(ColumnList)); }
    var values_ := tokens.ConsumeKeyword("VALUES");
    if values_.None? { return Err(Expected(Keyword("VALUES"))); }
    var values := tokens.NextParenValues();
    if values.None? { return Err(Expected(ValueList)); }
    if |columns.value| != |values.value| { return Err(CountMismatch); }
    var finished := tokens.EnsureFinished();
    if finished.None? { return Err(Expected(End)); }
    r := Ok(Insert(table.value, columns.value, values.value));
  }

  method ParseDelete(afterDelete: string) returns (r: Parsed<Statement>)
    ensures r == ReadDelete(afterDelete)
  {
    hide ReadIdentifier, ReadKeyword, ReadCondition, ReadEnd;
    var tokens := new Tokenizer(afterDelete);
    var from := tokens.ConsumeKeyword("FROM");
    if from.None? { return Err(Expected(Keyword("FROM"))); }
    var table := tokens.NextIdentifier();
    if table.None? { return Err(Expected(TableName)); }
    var where_ := tokens.ConsumeKeyword("WHERE");
    if where_.None? { return Err(Expected(Keyword("WHERE"))); }
    var condition := ParseWhereClause(tokens);
    if condition.Err? { return Err(condition.error); }
    var finished := tokens.EnsureFinished();
    if finished.None? { return Err(Expected(End)); }
    r := Ok(Delete(table.value, condition.value));
  }

  method Parse(sql: string) returns (r: Parsed<Statement>)
    ensures r == ReadStatement(sql)
  {
    var text := Trim(sql);
    if text == "" { return Err(EmptyStatement); }
    var word := FirstWord(text);
    hide ReadUpdate, ReadInsert, ReadDelete, ReadKeyword;
    if word == "UPDATE" {
      var rest :- ReadKeyword("UPDATE", text).Or(Keyword("UPDATE"));
      r := ParseUpdate(rest.1);
    } else if word == "INSERT" {
      var rest :- ReadKeyword("INSERT", text).Or(Keyword("INSERT"));
      r := ParseInsert(rest.1);
    } else if word == "DELETE" {
      var rest :- ReadKeyword("DELETE", text).Or(Keyword("DELETE"));
      r := ParseDelete(rest.1);
    } else {
      r := Err(UnsupportedStatement(word));
    }
  }
}
