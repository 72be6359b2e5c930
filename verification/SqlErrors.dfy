/** Why the debug journal's SQL is refused: each statement is a script of parts, and the error names the first part that
    cannot be read. */
module SqlErrors {
  import opened Machine
  import opened Texts
  import opened SqlGrammar

  // ---------------------------------------------------------------- scripts

  const UPDATE_PARTS: seq<Part> :=
    [TableName, Keyword("SET"), ColumnName, Equals, Value, Keyword("WHERE"), ColumnName, Comparison, Value, End]

  const DELETE_PARTS: seq<Part> :=
    [Keyword("FROM"), TableName, Keyword("WHERE"), ColumnName, Comparison, Value, End]

  /** An insert up to its lists, whose lengths are compared before its end. */
  const INSERT_PARTS: seq<Part> := [Keyword("INTO"), TableName, ColumnList, Keyword("VALUES"), ValueList]

  function RestOf<T>(r: Reading<T>): Option<string> {
    match r
    case Read(_, rest) => Some(rest)
    case Unread => None
  }

  /** What is left of a text after a part, if the part is there. */
  function AfterPart(part: Part, s: string): Option<string> {
    match part
    case Keyword(word) => RestOf(ReadKeyword(word, s))
    case TableName => RestOf(ReadIdentifier(s))
    case ColumnName => RestOf(ReadIdentifier(s))
    case Equals => RestOf(ReadEquals(s))
    case Value => RestOf(ReadValue(s))
    case Comparison => RestOf(ReadComparison(s))
    case ColumnList => IdentifiersAdvance(); RestOf(ReadList(ReadIdentifier, s))
    case ValueList => ValuesAdvance(); RestOf(ReadList(ReadValue, s))
    case End => RestOf(ReadEnd(s))
  }

  /** What is left after several parts. */
  function After(parts: seq<Part>, s: string): Option<string> {
    if parts == [] then Some(s)
    else
      match AfterPart(parts[0], s)
      case None => None
      case Some(rest) => After(parts[1..], rest)
  }

  /** The parts before the k-th are there, and it is not. */
  ghost predicate MissesAt(parts: seq<Part>, s: string, k: int) {
    && 0 <= k < |parts| && After(parts[..k], s).Some?
    && AfterPart(parts[k], After(parts[..k], s).value).None?
  }

  /** The first part that is missing. */
  function FirstMissing(parts: seq<Part>, s: string): (p: Option<Part>)
    ensures p.None? <==> After(parts, s).Some?
  {
    if parts == [] then None
    else
      match AfterPart(parts[0], s)
      case None => Some(parts[0])
      case Some(rest) => FirstMissing(parts[1..], rest)
  }

  lemma {:induction false} FirstMissingIff(parts: seq<Part>, s: string, k: nat)
    ensures MissesAt(parts, s, k) ==> FirstMissing(parts, s) == Some(parts[k])
    ensures FirstMissing(parts, s).Some? ==> exists i :: MissesAt(parts, s, i)
    decreases |parts|
  {
    hide AfterPart;
    if parts == [] {
      return;
    }
    var first := AfterPart(parts[0], s);
    if first.None? {
      assert parts[..0] == [];
      assert MissesAt(parts, s, 0);
      if 0 < k < |parts| {
        assert parts[..k][0] == parts[0];
      }
    } else {
      FirstMissingIff(parts[1..], first.value, if k > 0 then k - 1 else 0);
      forall i: nat | 0 < i <= |parts| ensures After(parts[..i], s) == After(parts[1..][..i - 1], first.value) {
        assert parts[..i][0] == parts[0] && parts[..i][1..] == parts[1..][..i - 1];
      }
      if i :| MissesAt(parts[1..], first.value, i) {
        assert MissesAt(parts, s, i + 1);
      }
      if k == 0 {
        assert parts[..0] == [];
      }
    }
  }

  /** The first part that is missing from the k-th on. */
  function MissingFrom(parts: seq<Part>, k: nat, s: string): Option<Part>
    requires k <= |parts|
  {
    FirstMissing(parts[k..], s)
  }

  lemma MissingNext(parts: seq<Part>, k: nat, s: string)
    requires k < |parts|
    ensures MissingFrom(parts, k, s) ==
      match AfterPart(parts[k], s)
      case None => Some(parts[k])
      case Some(rest) => MissingFrom(parts, k + 1, rest)
  {
    assert parts[k..][1..] == parts[k + 1..] && parts[k..][0] == parts[k];
    hide AfterPart;
  }

  lemma NothingMissing(parts: seq<Part>, s: string)
    ensures MissingFrom(parts, 0, s) == FirstMissing(parts, s)
    ensures forall t :: MissingFrom(parts, |parts|, t) == None
  {
    assert parts[|parts|..] == [] && parts[0..] == parts;
  }

  function AsError(p: Option<Part>): Option<SqlError> {
    match p
    case Some(part) => Some(Expected(part))
    case None => None
  }

  function ErrorOf<T>(r: Parsed<T>): Option<SqlError> {
    match r
    case Ok(_) => None
    case Err(e) => Some(e)
  }

  /** A condition is three parts of a longer script. */
  lemma ConditionError(parts: seq<Part>, k: nat, s: string)
    requires k + 3 <= |parts| && parts[k] == ColumnName && parts[k + 1] == Comparison && parts[k + 2] == Value
    ensures ReadCondition(s).Err? ==> AsError(MissingFrom(parts, k, s)) == Some(ReadCondition(s).error)
    ensures ReadCondition(s).Ok? ==> MissingFrom(parts, k, s) == MissingFrom(parts, k + 3, ReadCondition(s).value.1)
  {
    hide ReadIdentifier, ReadComparison, ReadValue, MissingFrom;
    MissingNext(parts, k, s);
    if ReadIdentifier(s).Read? {
      MissingNext(parts, k + 1, ReadIdentifier(s).rest);
      if ReadComparison(ReadIdentifier(s).rest).Read? {
        MissingNext(parts, k + 2, ReadComparison(ReadIdentifier(s).rest).rest);
      }
    }
  }

  /** DELETE is refused for the first part of its script that is missing. */
  lemma DeleteError(s: string)
    ensures ErrorOf(ReadDelete(s)) == AsError(FirstMissing(DELETE_PARTS, s))
  {
    var parts := DELETE_PARTS;
    NothingMissing(parts, s);
    hide ReadIdentifier, ReadKeyword, ReadCondition, ReadEnd, MissingFrom, FirstMissing;
    MissingNext(parts, 0, s);
    var from := ReadKeyword("FROM", s);
    if from.Unread? { return; }
    MissingNext(parts, 1, from.rest);
    var table := ReadIdentifier(from.rest);
    if table.Unread? { return; }
    MissingNext(parts, 2, table.rest);
    var where_ := ReadKeyword("WHERE", table.rest);
    if where_.Unread? { return; }
    ConditionError(parts, 3, where_.rest);
    if ReadCondition(where_.rest).Err? { return; }
    MissingNext(parts, 6, ReadCondition(where_.rest).value.1);
  }

  /** UPDATE is refused for the first part of its script that is missing. */
  lemma UpdateError(s: string)
    ensures ErrorOf(ReadUpdate(s)) == AsError(FirstMissing(UPDATE_PARTS, s))
  {
    var parts := UPDATE_PARTS;
    NothingMissing(parts, s);
    hide ReadIdentifier, ReadKeyword, ReadEquals, ReadValue, ReadCondition, ReadEnd, MissingFrom, FirstMissing;
    MissingNext(parts, 0, s);
    var table := ReadIdentifier(s);
    if table.Unread? { return; }
    MissingNext(parts, 1, table.rest);
    var set_ := ReadKeyword("SET", table.rest);
    if set_.Unread? { return; }
    MissingNext(parts, 2, set_.rest);
    var column := ReadIdentifier(set_.rest);
    if column.Unread? { return; }
    MissingNext(parts, 3, column.rest);
    var equals := ReadEquals(column.rest);
    if equals.Unread? { return; }
    MissingNext(parts, 4, equals.rest);
    var value := ReadValue(equals.rest);
    if value.Unread? { return; }
    MissingNext(parts, 5, value.rest);
    var where_ := ReadKeyword("WHERE", value.rest);
    if where_.Unread? { return; }
    ConditionError(parts, 6, where_.rest);
    if ReadCondition(where_.rest).Err? { return; }
    MissingNext(parts, 9, ReadCondition(where_.rest).value.1);
  }

  /** The table, columns and values an insert names, and what follows them. */
  ghost predicate InsertRead(s: string, table: string, columns: seq<string>, values: seq<SqlValue>, rest: string) {
    IdentifiersAdvance();
    ValuesAdvance();
    var into := ReadKeyword("INTO", s);
    into.Read? &&
    var name := ReadIdentifier(into.rest);
    name.Read? && name.value == table &&
    var names := ReadList(ReadIdentifier, name.rest);
    names.Read? && names.value == columns &&
    var values_ := ReadKeyword("VALUES", names.rest);
    values_.Read? && ReadList(ReadValue, values_.rest) == Read(values, rest)
  }

  /** INSERT is refused for the first part that is missing up to its values; then if it lists more or fewer values than
      columns; then for what follows. */
  lemma InsertError(s: string)
    ensures FirstMissing(INSERT_PARTS, s).Some? ==> ErrorOf(ReadInsert(s)) == AsError(FirstMissing(INSERT_PARTS, s))
    ensures FirstMissing(INSERT_PARTS, s).None? <==>
      exists table, columns, values, rest :: InsertRead(s, table, columns, values, rest)
    ensures forall table, columns, values, rest :: InsertRead(s, table, columns, values, rest) ==>
      ErrorOf(ReadInsert(s)) ==
        if |columns| != |values| then Some(CountMismatch)
        else if ReadEnd(rest).Unread? then Some(Expected(End))
        else None
  {
    IdentifiersAdvance();
    ValuesAdvance();
    var parts := INSERT_PARTS;
    NothingMissing(parts, s);
    hide ReadIdentifier, ReadKeyword, ReadValue, ReadList, ReadEnd, MissingFrom, FirstMissing;
    MissingNext(parts, 0, s);
    var into := ReadKeyword("INTO", s);
    if into.Unread? { return; }
    MissingNext(parts, 1, into.rest);
    var table := ReadIdentifier(into.rest);
    if table.Unread? { return; }
    MissingNext(parts, 2, table.rest);
    var columns := ReadList(ReadIdentifier, table.rest);
    if columns.Unread? { return; }
    MissingNext(parts, 3, columns.rest);
    var values_ := ReadKeyword("VALUES", columns.rest);
    if values_.Unread? { return; }
    MissingNext(parts, 4, values_.rest);
    var values := ReadList(ReadValue, values_.rest);
    if values.Read? {
      assert InsertRead(s, table.value, columns.value, values.value, values.rest);
    }
  }

  // ---------------------------------------------------------------- whole statements

  lemma {:induction false} TrimmedEnd(text: string, tail: string)
    requires Blank(tail) && (text == "" || !IsSpace(text[|text| - 1]))
    ensures TrimEnd(text + tail) == text
    decreases |tail|
  {
    if tail == "" {
      assert text + tail == text;
    } else {
      assert (text + tail)[..|text + tail| - 1] == text + tail[..|tail| - 1];
      TrimmedEnd(text, tail[..|tail| - 1]);
    }
  }

  lemma SkippedBlank(blank: string, text: string)
    requires Blank(blank) && (text == "" || !IsSpace(text[0]))
    ensures SkipSpace(blank + text) == text
  {
    PrefixLengthUnique(IsSpace, blank + text, |blank|);
  }

  /** A blank text is refused as empty. */
  lemma BlankIsEmpty(sql: string)
    requires Blank(sql)
    ensures ReadStatement(sql) == Err(EmptyStatement)
  {
    assert sql + "" == sql;
    SkippedBlank(sql, "");
  }

  /** Any other text has a first word, which ends at white space or with the text: if it is a verb, in letters of either
      case, what follows it is read by the verb's script; otherwise the text is refused for the word. */
  lemma FirstWordDecides(lead: string, word: string, rest: string, tail: string)
    requires Blank(lead) && Blank(tail)
    requires word != "" && forall i :: 0 <= i < |word| ==> !IsSpace(word[i])
    requires rest != "" ==> IsSpace(rest[0]) && !IsSpace(rest[|rest| - 1])
    ensures var r := ErrorOf(ReadStatement(lead + (word + rest + tail)));
      && (Upper(word) == "UPDATE" ==> r == AsError(FirstMissing(UPDATE_PARTS, rest)))
      && (Upper(word) == "INSERT" ==> r == ErrorOf(ReadInsert(rest)))
      && (Upper(word) == "DELETE" ==> r == AsError(FirstMissing(DELETE_PARTS, rest)))
      && (Upper(word) !in {"UPDATE", "INSERT", "DELETE"} ==> r == Some(UnsupportedStatement(Upper(word))))
  {
    TrimmedEnd(word + rest, tail);
    SkippedBlank(lead, word + rest + tail);
    FirstWordIs(word, rest);
    UpperVerbs();
    hide FirstWord, ReadKeyword, ReadStatement, FirstMissing, Upper, SkipSpace, TrimEnd;
    UpdateError(rest);
    DeleteError(rest);
    if Upper(word) in {"UPDATE", "INSERT", "DELETE"} {
      VerbRead(Upper(word), word, rest);
    }
    Dispatched(lead + (word + rest + tail), word + rest, Upper(word), rest);
  }

  lemma Dispatched(sql: string, text: string, verb: string, rest: string)
    requires Trim(sql) == text && text != "" && FirstWord(text) == verb
    requires verb in {"UPDATE", "INSERT", "DELETE"} ==> ReadKeyword(verb, text) == Read((), rest)
    ensures ErrorOf(ReadStatement(sql)) ==
      if verb == "UPDATE" then ErrorOf(ReadUpdate(rest))
      else if verb == "INSERT" then ErrorOf(ReadInsert(rest))
      else if verb == "DELETE" then ErrorOf(ReadDelete(rest))
      else Some(UnsupportedStatement(verb))
  {
    hide Trim, FirstWord, ReadKeyword, ReadUpdate, ReadInsert, ReadDelete;
  }

  lemma FirstWordIs(word: string, rest: string)
    requires word != "" && forall i :: 0 <= i < |word| ==> !IsSpace(word[i])
    requires rest != "" ==> IsSpace(rest[0])
    ensures FirstWord(word + rest) == Upper(word) && word + rest != ""
  {
    PrefixLengthUnique(c => !IsSpace(c), word + rest, |word|);
    assert (word + rest)[..|word|] == word;
  }

  lemma UpperVerbs()
    ensures Upper("UPDATE") == "UPDATE" && Upper("INSERT") == "INSERT" && Upper("DELETE") == "DELETE"
  {
    UpperAt("UPDATE");
    UpperAt("INSERT");
    UpperAt("DELETE");
    hide Upper;
  }

  lemma VerbRead(verb: string, word: string, rest: string)
    requires word != "" && !IsSpace(word[0]) && (rest != "" ==> IsSpace(rest[0]))
    requires Upper(word) == verb == Upper(verb)
    ensures ReadKeyword(verb, word + rest) == Read((), rest)
  {
    hide Upper, SkipSpace;
    SkippedBlank("", word + rest);
    assert "" + (word + rest) == word + rest;
    assert |verb| == |word|;
    assert (word + rest)[..|word|] == word && (word + rest)[|word|..] == rest;
  }

  /** Every text that is not blank has such parts. */
  lemma TextHasWord(sql: string) returns (lead: string, word: string, rest: string, tail: string)
    requires !Blank(sql)
    ensures sql == lead + (word + rest + tail) && Blank(lead) && Blank(tail)
    ensures word != "" && forall i :: 0 <= i < |word| ==> !IsSpace(word[i])
    ensures rest != "" ==> IsSpace(rest[0]) && !IsSpace(rest[|rest| - 1])
  {
    hide PrefixLength, TrimEnd;
    var n := PrefixLength(IsSpace, sql);
    lead := sql[..n];
    assert n < |sql| && !IsSpace(sql[n]);
    var text := TrimEnd(sql[n..]);
    tail := sql[n..][|text|..];
    JoinedParts(sql, n, text, tail);
    word, rest := WordAndRest(text);
    assert word + rest + tail == text + tail;
  }

  lemma JoinedParts(sql: string, n: nat, text: string, tail: string)
    requires n < |sql| && !IsSpace(sql[n]) && text <= sql[n..] && tail == sql[n..][|text|..] && Blank(tail)
    ensures sql == sql[..n] + (text + tail) && text != "" && text[0] == sql[n]
  {
    assert sql[n..][0] == sql[n] && (tail == "" || IsSpace(tail[0]));
    assert sql[n..] == text + tail && sql == sql[..n] + sql[n..];
  }

  lemma WordAndRest(text: string) returns (word: string, rest: string)
    requires text != "" && !IsSpace(text[0]) && !IsSpace(text[|text| - 1])
    ensures text == word + rest && word != "" && forall i :: 0 <= i < |word| ==> !IsSpace(word[i])
    ensures rest != "" ==> IsSpace(rest[0]) && !IsSpace(rest[|rest| - 1])
  {
    var k := PrefixLength(c => !IsSpace(c), text);
    word, rest := text[..k], text[k..];
    hide PrefixLength;
  }
}
