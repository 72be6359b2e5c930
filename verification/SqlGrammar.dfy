/** The debug journal's SQL dialect: UPDATE, INSERT and DELETE statements, and what each reads from the front of a text.
    A reading function takes the text that is left and answers what it read and what is left then. */
module SqlGrammar {
  import opened Machine
  import opened Texts

  datatype SqlValue = Integer(i: i64) | Float(text: string) | String(s: string) | Boolean(b: bool) | Null

  datatype ComparisonOp = Eq | Lt | Gt | Le | Ge | Ne

  datatype Condition = Condition(column: string, operator: ComparisonOp, value: SqlValue)

  datatype Statement =
    | Update(table: string, column: string, value: SqlValue, condition: Condition)
    | Insert(table: string, columns: seq<string>, values: seq<SqlValue>)
    | Delete(table: string, condition: Condition)

  datatype Part =
    Keyword(word: string) | TableName | ColumnName | Equals | Value | Comparison | ColumnList | ValueList | End

  datatype SqlError =
    | EmptyStatement
    | UnsupportedStatement(word: string)
    | Expected(part: Part)
    | CountMismatch
    | NotAnEquality
    | NotAnIdColumn(column: string)
    | NotARowId(value: SqlValue)
    | NoRowId

  type Parsed<T> = Result<T, SqlError>

  /** What was read and what is left, or that nothing could be read. */
  datatype Reading<+T> = Read(value: T, rest: string) | Unread {
    function Or(part: Part): Parsed<(T, string)> {
      match this
      case Read(v, rest) => Ok((v, rest))
      case Unread => Err(Expected(part))
    }
  }

  predicate IsWordStart(c: char) {
    IsAlpha(c) || c == '_'
  }

  predicate IsWordChar(c: char) {
    IsAlnum(c) || c == '_'
  }

  predicate StartsWith(s: string, c: char) {
    s != "" && s[0] == c
  }

  // ---------------------------------------------------------------- tokens

  function SkipSpace(s: string): string {
    s[PrefixLength(IsSpace, s)..]
  }

  function Trim(s: string): string {
    TrimEnd(SkipSpace(s))
  }

  /** A keyword, in either case, that no word character follows. */
  function ReadKeyword(word: string, s: string): Reading<()> {
    var t := SkipSpace(s);
    if |t| >= |word| && Upper(t[..|word|]) == Upper(word) && (|t| == |word| || !IsWordChar(t[|word|]))
    then Read((), t[|word|..])
    else Unread
  }

  function ReadEquals(s: string): Reading<()> {
    var t := SkipSpace(s);
    if StartsWith(t, '=') then Read((), t[1..]) else Unread
  }

  function ReadIdentifier(s: string): Reading<string> {
    var t := SkipSpace(s);
    if t == "" || !IsWordStart(t[0]) then Unread
    else
      var n := PrefixLength(IsWordChar, t);
      Read(t[..n], t[n..])
  }

  function ReadComparison(s: string): Reading<ComparisonOp> {
    var t := SkipSpace(s);
    if "<=" <= t then Read(Le, t[2..])
    else if ">=" <= t then Read(Ge, t[2..])
    else if "!=" <= t || "<>" <= t then Read(Ne, t[2..])
    else if StartsWith(t, '<') then Read(Lt, t[1..])
    else if StartsWith(t, '>') then Read(Gt, t[1..])
    else if StartsWith(t, '=') then Read(Eq, t[1..])
    else Unread
  }

  /** Nothing but spaces left. */
  function ReadEnd(s: string): Reading<()> {
    if SkipSpace(s) == "" then Read((), "") else Unread
  }

  // ---------------------------------------------------------------- values

  /** The length of a literal's body: up to the first quote that is not doubled. */
  function BodyLength(quote: char, s: string): (r: Option<nat>)
    ensures r.Some? ==> r.value < |s| && s[r.value] == quote
  {
    if s == "" then None
    else if s[0] != quote then
      match BodyLength(quote, s[1..])
      case Some(n) => Some(1 + n)
      case None => None
    else if StartsWith(s[1..], quote) then
      match BodyLength(quote, s[2..])
      case Some(n) => Some(2 + n)
      case None => None
    else Some(0)
  }

  /** Every doubled quote, from the left, replaced by one. */
  function Undoubled(quote: char, s: string): string {
    if s == "" then ""
    else [s[0]] + Undoubled(quote, if s[0] == quote && StartsWith(s[1..], quote) then s[2..] else s[1..])
  }

  function ReadString(quote: char, s: string): Reading<SqlValue>
    requires StartsWith(s, quote)
  {
    match BodyLength(quote, s[1..])
    case Some(n) => Read(String(Undoubled(quote, s[1..][..n])), s[1..][n + 1..])
    case None => Unread
  }

  function ReadConstant(s: string): Reading<SqlValue> {
    var n := PrefixLength(IsAlpha, s);
    var word := Upper(s[..n]);
    if word == "TRUE" then Read(Boolean(true), s[n..])
    else if word == "FALSE" then Read(Boolean(false), s[n..])
    else if word == "NULL" then Read(Null, s[n..])
    else Unread
  }

  /** Where a number's characters end, and whether they hold a dot: digits, one dot after the first place, and a sign in
      the first place. */
  function NumberEnd(s: string, i: nat, dot: bool): (r: (nat, bool))
    requires i <= |s|
    ensures i <= r.0 <= |s|
    decreases |s| - i
  {
    if i < |s| && (IsDigit(s[i]) || ((s[i] == '-' || s[i] == '+') && i == 0)) then NumberEnd(s, i + 1, dot)
    else if i < |s| && s[i] == '.' && !dot && i > 0 then NumberEnd(s, i + 1, true)
    else (i, dot)
  }

  /** str::parse for a float, on texts that NumberEnd accepts: at least one digit. The number is kept as text. */
  function ParseFloat(s: string): Option<string> {
    if exists i :: 0 <= i < |s| && IsDigit(s[i]) then Some(s) else None
  }

  function ReadNumber(s: string): Reading<SqlValue>
    requires s != ""
  {
    var (n, dot) := NumberEnd(s, 0, false);
    if n == 0 || (n == 1 && !IsDigit(s[0])) then Unread
    else if dot then
      match ParseFloat(s[..n])
      case Some(text) => Read(Float(text), s[n..])
      case None => Unread
    else
      match ParseInteger(s[..n], I64_MIN, I64_MAX)
      case Some(i) => Read(Integer(i), s[n..])
      case None => Unread
  }

  function ReadValue(s: string): Reading<SqlValue> {
    var t := SkipSpace(s);
    if t == "" then Unread
    else if t[0] == '\'' || t[0] == '"' then ReadString(t[0], t)
    else if IsAlpha(t[0]) then ReadConstant(t)
    else if IsDigit(t[0]) || t[0] == '-' || t[0] == '+' then ReadNumber(t)
    else Unread
  }

  // ---------------------------------------------------------------- lists

  /** Reading an item uses up text. */
  ghost predicate Advances<T>(item: string -> Reading<T>) {
    forall s :: item(s).Read? ==> |item(s).rest| < |s|
  }

  /** The items of a list after its opening parenthesis, up to the closing one; a comma may stand before it. */
  function ReadItems<T>(item: string -> Reading<T>, s: string): Reading<seq<T>>
    requires Advances(item)
    decreases |s|
  {
    var t := SkipSpace(s);
    if StartsWith(t, ')') then Read([], t[1..])
    else
      match item(t)
      case Unread => Unread
      case Read(x, after) =>
        var u := SkipSpace(after);
        if StartsWith(u, ',') then
          match ReadItems(item, u[1..])
          case Read(xs, rest) => Read([x] + xs, rest)
          case Unread => Unread
        else if StartsWith(u, ')') then Read([x], u[1..])
        else Unread
  }

  function ReadList<T>(item: string -> Reading<T>, s: string): Reading<seq<T>>
    requires Advances(item)
  {
    var t := SkipSpace(s);
    if StartsWith(t, '(') then ReadItems(item, t[1..]) else Unread
  }

  lemma IdentifiersAdvance()
    ensures Advances(ReadIdentifier)
  {
    forall s | ReadIdentifier(s).Read? ensures |ReadIdentifier(s).rest| < |s| {
      var t := SkipSpace(s);
      assert IsWordChar(t[0]);
    }
  }

  lemma ValuesAdvance()
    ensures Advances(ReadValue)
  {
    forall s | ReadValue(s).Read? ensures |ReadValue(s).rest| < |s| {
      var t := SkipSpace(s);
      if IsAlpha(t[0]) {
        assert PrefixLength(IsAlpha, t) > 0;
      }
    }
  }

  // ---------------------------------------------------------------- statements

  function ReadCondition(s: string): Parsed<(Condition, string)> {
    var column :- ReadIdentifier(s).Or(ColumnName);
    var operator :- ReadComparison(column.1).Or(Comparison);
    var value :- ReadValue(operator.1).Or(Value);
    Ok((Condition(column.0, operator.0, value.0), value.1))
  }

  /** What follows UPDATE. */
  function ReadUpdate(s: string): Parsed<Statement> {
    var table :- ReadIdentifier(s).Or(TableName);
    var set_ :- ReadKeyword("SET", table.1).Or(Keyword("SET"));
    var column :- ReadIdentifier(set_.1).Or(ColumnName);
    var equals :- ReadEquals(column.1).Or(Equals);
    var value :- ReadValue(equals.1).Or(Value);
    var where_ :- ReadKeyword("WHERE", value.1).Or(Keyword("WHERE"));
    var condition :- ReadCondition(where_.1);
    var _ :- ReadEnd(condition.1).Or(End);
    Ok(Update(table.0, column.0, value.0, condition.0))
  }

  /** What follows INSERT. */
  function ReadInsert(s: string): Parsed<Statement> {
    IdentifiersAdvance();
    ValuesAdvance();
    var into :- ReadKeyword("INTO", s).Or(Keyword("INTO"));
    var table :- ReadIdentifier(into.1).Or(TableName);
    var columns :- ReadList(ReadIdentifier, table.1).Or(ColumnList);
    var values_ :- ReadKeyword("VALUES", columns.1).Or(Keyword("VALUES"));
    var values :- ReadList(ReadValue, values_.1).Or(ValueList);
    if |columns.0| != |values.0| then Err(CountMismatch)
    else
      var _ :- ReadEnd(values.1).Or(End);
      Ok(Insert(table.0, columns.0, values.0))
  }

  /** What follows DELETE. */
  function ReadDelete(s: string): Parsed<Statement> {
    var from :- ReadKeyword("FROM", s).Or(Keyword("FROM"));
    var table :- ReadIdentifier(from.1).Or(TableName);
    var where_ :- ReadKeyword("WHERE", table.1).Or(Keyword("WHERE"));
    var condition :- ReadCondition(where_.1);
    var _ :- ReadEnd(condition.1).Or(End);
    Ok(Delete(table.0, condition.0))
  }

  /** The text up to the first space, in upper case. */
  function FirstWord(s: string): string {
    Upper(s[..PrefixLength(c => !IsSpace(c), s)])
  }

  function ReadStatement(sql: string): Parsed<Statement> {
    var text := Trim(sql);
    if text == "" then Err(EmptyStatement)
    else
      var word := FirstWord(text);
      if word == "UPDATE" then
        var rest :- ReadKeyword("UPDATE", text).Or(Keyword("UPDATE"));
        ReadUpdate(rest.1)
      else if word == "INSERT" then
        var rest :- ReadKeyword("INSERT", text).Or(Keyword("INSERT"));
        ReadInsert(rest.1)
      else if word == "DELETE" then
        var rest :- ReadKeyword("DELETE", text).Or(Keyword("DELETE"));
        ReadDelete(rest.1)
      else Err(UnsupportedStatement(word))
  }
}
