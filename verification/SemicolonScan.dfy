/** The read path's guard against several statements in one SQL text: a scan that tells semicolons in the text from
    semicolons inside quotes. */
module SemicolonScans {
  import opened Machine
  import opened Texts

  datatype SqlNotAllowed = MultiStatement

  // ---------------------------------------------------------------- quotes as a two-state machine

  /** Reading one character: a quote opens, the same quote closes. A doubled quote needs no rule of its own. */
  function Toggle(quote: Option<char>, c: char): Option<char> {
    match quote
    case Some(q) => if c == q then None else quote
    case None => if c == '\'' || c == '"' then Some(c) else None
  }

  /** The open quote after reading a text, from a given state. */
  function QuoteAfter(quote: Option<char>, s: string): Option<char> {
    if s == "" then quote else Toggle(QuoteAfter(quote, s[..|s| - 1]), s[|s| - 1])
  }

  lemma {:induction false} QuoteAfterJoins(quote: Option<char>, s: string, t: string)
    ensures QuoteAfter(quote, s + t) == QuoteAfter(QuoteAfter(quote, s), t)
    decreases |t|
  {
    if t == "" {
      assert s + t == s;
    } else {
      assert (s + t)[..|s + t| - 1] == s + t[..|t| - 1];
      QuoteAfterJoins(quote, s, t[..|t| - 1]);
    }
  }

  /** A semicolon that separates statements. */
  predicate Unquoted(s: string, i: int) {
    0 <= i < |s| && s[i] == ';' && QuoteAfter(None, s[..i]).None?
  }

  // ---------------------------------------------------------------- what the guard answers

  /** The text holds one statement: nothing but blanks follows a separator. */
  ghost predicate SingleStatement(s: string) {
    forall i :: Unquoted(s, i) ==> Blank(s[i + 1..])
  }

  /** One statement comes back without its separator; any other text is refused. */
  ghost predicate Stripped(s: string, r: Result<string, SqlNotAllowed>) {
    && (r.Ok? <==> SingleStatement(s))
    && ((r.Ok? && forall i :: !Unquoted(s, i)) ==> r.value == s)
    && (forall i :: r.Ok? && Unquoted(s, i) ==> r.value == TrimEnd(s[..i]))
  }

  lemma SeparatorIsNotBlank(s: string, i: int, j: int)
    requires Unquoted(s, i) && Unquoted(s, j) && i < j
    ensures !Blank(s[i + 1..])
  {
    assert s[i + 1..][j - i - 1] == ';';
  }

  method StripTrailingSemicolon(sql: string) returns (r: Result<string, SqlNotAllowed>)
    ensures Stripped(sql, r)
  {
    var quote: Option<char> := None;
    var semicolonIndex: Option<nat> := None;
    var semicolonCount: nat := 0;
    var i := 0;
    while i < |sql|
      invariant 0 <= i <= |sql|
      invariant quote == QuoteAfter(None, sql[..i])
      invariant semicolonIndex.None? <==> semicolonCount == 0
      invariant forall k :: Unquoted(sql, k) && k < i ==> semicolonCount > 0 && k <= semicolonIndex.value
      invariant semicolonCount > 0 ==> semicolonIndex.value < i && Unquoted(sql, semicolonIndex.value)
      invariant semicolonCount > 1 <==> exists k :: Unquoted(sql, k) && k < i && k != semicolonIndex.value
    {
      var ch := sql[i];
      assert sql[..i + 1][..i] == sql[..i];
      var next := i + 1;
      if quote.Some? {
        if ch == quote.value {
          if quote.value == '\'' && i + 1 < |sql| && sql[i + 1] == quote.value {
            assert sql[..i + 2][..i + 1] == sql[..i + 1];
            assert !Unquoted(sql, i + 1);
            next := i + 2;
          } else {
            quote := None;
          }
        }
        assert !Unquoted(sql, i);
      } else if ch == '\'' || ch == '"' {
        quote := Some(ch);
        assert !Unquoted(sql, i);
      } else if ch == ';' {
        assert Unquoted(sql, i);
        semicolonCount := semicolonCount + 1;
        semicolonIndex := Some(i);
      } else {
        assert !Unquoted(sql, i);
      }
      i := next;
    }
    if semicolonCount == 0 {
      r := Ok(sql);
    } else {
      var last := semicolonIndex.value;
      if semicolonCount == 1 && Blank(sql[last + 1..]) {
        r := Ok(TrimEnd(sql[..last]));
      } else {
        r := Err(MultiStatement);
        if k :| Unquoted(sql, k) && k != last {
          SeparatorIsNotBlank(sql, k, last);
        }
      }
    }
  }

  // ---------------------------------------------------------------- consequences

  /** The guard's answer depends on the text alone. */
  lemma StrippedOnce(s: string, r: Result<string, SqlNotAllowed>, r': Result<string, SqlNotAllowed>)
    requires Stripped(s, r) && Stripped(s, r')
    ensures r == r'
  {
    if i :| Unquoted(s, i) {
      assert r.Ok? ==> r.value == TrimEnd(s[..i]) && r'.value == TrimEnd(s[..i]);
    }
    assert r.Err? ==> r.error == MultiStatement && r'.error == MultiStatement;
  }

  /** What comes back holds no separator at all, so guarding it again changes nothing. */
  lemma StrippedIsSingle(s: string, out: string)
    requires Stripped(s, Ok(out))
    ensures forall i :: !Unquoted(out, i)
    ensures Stripped(out, Ok(out))
  {
    forall i ensures !Unquoted(out, i) {
      if Unquoted(out, i) {
        if k :| Unquoted(s, k) {
          assert out <= s[..k];
          assert out[..i] == s[..i];
          assert Unquoted(s, i);
          SeparatorIsNotBlank(s, i, k);
        }
      }
    }
  }

  /** Where reading a text goes on inside a quote. */
  ghost predicate StaysQuoted(quote: Option<char>, s: string) {
    forall i :: 0 <= i < |s| && s[i] == ';' ==> QuoteAfter(quote, s[..i]).Some?
  }

  predicate IsQuote(c: char) {
    c == '\'' || c == '"'
  }

  lemma {:induction false} DoubledStaysQuoted(q: char, s: string)
    requires IsQuote(q)
    ensures QuoteAfter(Some(q), Doubled(q, s)) == Some(q)
    ensures StaysQuoted(Some(q), Doubled(q, s))
  {
    if s != "" {
      var first := if s[0] == q then [q, q] else [s[0]];
      var rest := Doubled(q, s[1..]);
      DoubledStaysQuoted(q, s[1..]);
      HeadStaysQuoted(q, s[0]);
      assert Doubled(q, s) == first + rest;
      hide QuoteAfter, Doubled, StaysQuoted;
      QuoteAfterJoins(Some(q), first, rest);
      StaysQuotedJoins(Some(q), first, rest);
    }
  }

  lemma HeadStaysQuoted(q: char, c: char)
    requires IsQuote(q)
    ensures var first := if c == q then [q, q] else [c];
      QuoteAfter(Some(q), first) == Some(q) && StaysQuoted(Some(q), first)
  {
    assert [q, q][..1] == [q] && [q][..0] == "" && [c][..0] == "";
    assert QuoteAfter(Some(q), [q]) == Toggle(Some(q), q) == None;
    assert QuoteAfter(Some(q), [q, q]) == Toggle(None, q);
  }

  lemma StaysQuotedJoins(quote: Option<char>, s: string, t: string)
    requires StaysQuoted(quote, s) && StaysQuoted(QuoteAfter(quote, s), t)
    ensures StaysQuoted(quote, s + t)
  {
    forall i | 0 <= i < |s + t| && (s + t)[i] == ';' ensures QuoteAfter(quote, (s + t)[..i]).Some? {
      if i < |s| {
        assert (s + t)[..i] == s[..i];
      } else {
        assert (s + t)[..i] == s + t[..i - |s|];
        QuoteAfterJoins(quote, s, t[..i - |s|]);
      }
    }
    hide QuoteAfter;
  }

  /** A whole literal opens and closes its quote, and stays quoted in between. */
  lemma LiteralIsQuoted(q: char, value: string)
    requires IsQuote(q)
    ensures QuoteAfter(None, Quoted(q, value)).None?
    ensures forall i :: 0 <= i < |Quoted(q, value)| && Quoted(q, value)[i] == ';' ==>
      QuoteAfter(None, Quoted(q, value)[..i]).Some?
  {
    var body := Doubled(q, value);
    var literal := Quoted(q, value);
    DoubledStaysQuoted(q, value);
    assert literal == [q] + body + [q];
    QuoteAfterJoins(None, [q] + body, [q]);
    QuoteAfterJoins(None, [q], body);
    assert [q][..0] == "" && QuoteAfter(None, [q]) == Some(q);
    assert QuoteAfter(Some(q), [q]).None?;
    forall i | 0 <= i < |literal| && literal[i] == ';' ensures QuoteAfter(None, literal[..i]).Some? {
      var k := i - 1;
      assert 0 <= k < |body| && body[k] == ';';
      assert literal[..i] == [q] + body[..k];
      QuoteAfterJoins(None, [q], body[..k]);
    }
  }

  /** A literal, in quotes of either kind, can stand for any value in a statement: whatever the value holds, the text
      around it decides whether there is one statement. */
  lemma LiteralsHideSeparators(before: string, q: char, value: string, after: string, i: nat)
    requires QuoteAfter(None, before).None? && IsQuote(q)
    ensures Unquoted(before + Quoted(q, value) + after, i) <==>
      (if i < |before + Quoted(q, value)| then Unquoted(before, i)
       else Unquoted(after, i - |before + Quoted(q, value)|))
  {
    var literal := Quoted(q, value);
    var text := before + literal + after;
    LiteralIsQuoted(q, value);
    QuoteAfterJoins(None, before, literal);
    hide *;
    if i < |before| {
      assert text[..i] == before[..i] && text[i] == before[i];
      UnquotedMeans(text, i);
      UnquotedMeans(before, i);
    } else if i < |before + literal| {
      var k := i - |before|;
      assert text[i] == literal[k] && text[..i] == before + literal[..k];
      QuoteAfterJoins(None, before, literal[..k]);
      UnquotedMeans(text, i);
      UnquotedMeans(before, i);
    } else if i < |text| {
      var k := i - |before + literal|;
      assert text[i] == after[k] && text[..i] == before + literal + after[..k];
      QuoteAfterJoins(None, before + literal, after[..k]);
      UnquotedMeans(text, i);
      UnquotedMeans(after, k);
    } else {
      UnquotedMeans(text, i);
      UnquotedMeans(after, i - |before + literal|);
    }
  }

  lemma UnquotedMeans(s: string, i: int)
    ensures Unquoted(s, i) <==> 0 <= i < |s| && s[i] == ';' && QuoteAfter(None, s[..i]).None?
  {
  }
}
