// The recursive-descent parser itself: an object that moves a position over its input, proved to compute the
// grammar of QueryParsing and to build the compiled query on the way.
module QueryParsers {
  import opened Values
  import Q = Queries
  import G = QueryParsing

  class Parser {
    const classify: G.Classifier
    const input: string
    var pos: nat

    constructor (classify: G.Classifier, input: string)
      ensures this.classify == classify && this.input == input && pos == 0
    {
      this.classify := classify;
      this.input := input;
      pos := 0;
    }

    predicate Within()
      reads this
    {
      pos <= |input|
    }

    /** The query compiled from what has been read. */
    ghost predicate IsBuilt(q: Q.Query, e: G.Written) {
      G.Accepted(classify, e) && q == Q.Compile(G.Build(classify, e))
    }

    lemma BuiltTogether(left: Q.Query, l: G.Written, right: Q.Query, r: G.Written)
      requires IsBuilt(left, l) && IsBuilt(right, r)
      ensures IsBuilt(Q.MakeBoolMust(left, right), Q.And(l, r))
      ensures IsBuilt(Q.MakeBoolShould(left, right), Q.Or(l, r))
      ensures IsBuilt(Q.MakeBoolMustNotAnd(left, right), Q.AndNot(l, r))
    {
    }

    /** A parse step: the compiled query at the end the grammar gives, or the grammar's error. */
    ghost predicate Follows(r: Result<Q.Query, G.ParseError>, parsed: G.Parsed)
      reads this
    {
      && Within()
      && match parsed
         case Ok(p) => r.Ok? && IsBuilt(r.value, p.0) && pos == p.1
         case Err(e) => r == Err(e)
    }

    // ----- tokens -----

    method SkipWhitespace()
      requires Within()
      modifies this
      ensures Within() && pos == G.SkipWhitespace(input, old(pos))
    {
      while pos < |input| && G.IsWhitespace(input[pos])
        invariant Within() && G.SkipWhitespace(input, pos) == G.SkipWhitespace(input, old(pos))
      {
        pos := pos + 1;
      }
    }

    /** Skips white space, and the character if it is next. */
    method Skip(c: char) returns (found: bool)
      requires Within()
      modifies this
      ensures Within() && found == G.CharAt(input, G.SkipWhitespace(input, old(pos)), c)
      ensures pos == G.SkipWhitespace(input, old(pos)) + if found then 1 else 0
    {
      SkipWhitespace();
      found := G.CharAt(input, pos, c);
      if found {
        pos := pos + 1;
      }
    }

    method SkipWord(k: G.Keyword) returns (found: bool)
      requires Within()
      modifies this
      ensures Within() && found == G.KeywordAt(input, G.SkipWhitespace(input, old(pos)), k)
      ensures pos == G.SkipWhitespace(input, old(pos)) + if found then k.Length() else 0
    {
      SkipWhitespace();
      found := G.KeywordAt(input, pos, k);
      if found {
        pos := pos + k.Length();
      }
    }

    method ReadWord() returns (word: string)
      requires Within()
      modifies this
      ensures Within() && pos == G.WordEnd(input, old(pos)) && word == input[old(pos)..pos]
    {
      var start := pos;
      while pos < |input| && G.IsWordChar(input[pos])
        invariant start <= pos && Within() && G.WordEnd(input, pos) == G.WordEnd(input, start)
      {
        pos := pos + 1;
      }
      word := input[start..pos];
    }

    method ReadValue() returns (r: Result<string, G.ParseError>)
      requires Within()
      modifies this
      ensures Within()
      ensures match G.ReadValue(input, old(pos))
              case Ok(v) => r == Ok(v.0) && pos == v.1
              case Err(e) => r == Err(e)
    {
      SkipWhitespace();
      if pos >= |input| {
        return Ok("");
      }
      if input[pos] == '"' {
        r := ReadQuoted();
        return;
      }
      var start := pos;
      while pos < |input| && !G.IsWhitespace(input[pos]) && !G.IsOperatorStart(input, pos)
        invariant start <= pos && Within() && G.ValueEnd(input, pos) == G.ValueEnd(input, start)
      {
        pos := pos + 1;
      }
      r := Ok(input[start..pos]);
    }

    method ReadQuoted() returns (r: Result<string, G.ParseError>)
      requires G.CharAt(input, pos, '"')
      modifies this
      ensures Within()
      ensures match G.ClosingQuote(input, old(pos) + 1)
              case Some(q) => r == Ok(input[old(pos) + 1..q]) && pos == q + 1
              case None => r == Err(G.UnclosedQuote)
    {
      pos := pos + 1;
      var start := pos;
      while pos < |input|
        invariant start <= pos && Within() && G.ClosingQuote(input, pos) == G.ClosingQuote(input, start)
        decreases |input| - pos
      {
        if input[pos] == '\\' && pos + 1 < |input| {
          pos := pos + 2;
        } else if input[pos] == '"' {
          pos := pos + 1;
          return Ok(input[start..pos - 1]);
        } else {
          pos := pos + 1;
        }
      }
      r := Err(G.UnclosedQuote);
    }

    // ----- grammar -----

    /** Tries a word, a colon and a value, and goes back to the start where there is no colon or no value. */
    method TryParseFieldValue() returns (r: Result<Option<(string, string)>, G.ParseError>)
      requires Within()
      modifies this
      ensures Within()
      ensures match G.FieldValue(input, old(pos))
              case Ok(Some(p)) => r == Ok(Some((p.0, p.1))) && pos == p.2
              case Ok(None) => r == Ok(None) && pos == old(pos)
              case Err(e) => r == Err(e)
    {
      var start := pos;
      var field := ReadWord();
      if field == [] {
        pos := start;
        return Ok(None);
      }
      var colon := Skip(':');
      if !colon {
        pos := start;
        return Ok(None);
      }
      var value :- ReadValue();
      if value == [] {
        pos := start;
        return Err(G.MissingValue);
      }
      r := Ok(Some((field, value)));
    }

    method ParseClause() returns (r: Result<Q.Query, G.ParseError>)
      requires Within()
      modifies this
      ensures Follows(r, G.ParseClause(classify, input, old(pos)))
    {
      var pair :- TryParseFieldValue();
      if pair.Some? {
        var (field, value) := pair.value;
        var leaf := classify(field, value);
        return if leaf.Some? then Ok(Q.Single(leaf.value)) else Err(G.InvalidClause);
      }
      var word := ReadWord();
      r := if word == [] then Err(G.UnexpectedEnd) else Ok(Q.Single(Q.Term("tag", Q.Word(word), None)));
    }

    method ParsePrimary() returns (r: Result<Q.Query, G.ParseError>)
      requires Within()
      modifies this
      ensures Follows(r, G.ParsePrimary(classify, input, old(pos)))
      decreases |input| - pos, 1
    {
      var open := Skip('(');
      if open {
        var query :- ParseOrExpr();
        var closed := Skip(')');
        r := if closed then Ok(query) else Err(G.ExpectedClosingParenthesis);
      } else {
        r := ParseClause();
      }
    }

    /** Moves to the next operand of the AND level, if there is one. */
    method SkipAndOperator() returns (found: bool)
      requires Within()
      modifies this
      ensures Within()
      ensures G.NextOperand(input, old(pos)) == if found then Some(pos) else None
      ensures !found ==> pos == G.SkipWhitespace(input, old(pos))
    {
      SkipWhitespace();
      if G.CharAt(input, pos, ')') || pos >= |input| {
        return false;
      }
      if G.KeywordAt(input, pos, G.AndWord) {
        pos := pos + 3;
        return true;
      }
      found := !G.IsAtOperator(input, pos);
    }

    method ParseAndExpr() returns (r: Result<Q.Query, G.ParseError>)
      requires Within()
      modifies this
      ensures Follows(r, G.ParseAnd(classify, input, old(pos)))
      decreases |input| - pos, 2
    {
      ghost var start := pos;
      ghost var parsed := G.ParseAnd(classify, input, start);
      ghost var operand := G.ParsePrimary(classify, input, start);
      var left :- ParsePrimary();
      ghost var e := operand.value.0;
      while true
        invariant start < pos && Within() && IsBuilt(left, e)
        invariant parsed == G.AndLoop(classify, input, e, pos)
        decreases |input| - pos
      {
        ghost var before := pos;
        var found := SkipAndOperator();
        if !found {
          break;
        }
        operand := G.ParsePrimary(classify, input, pos);
        G.AndTurn(classify, input, e, before, pos, operand);
        var right :- ParsePrimary();
        BuiltTogether(left, e, right, operand.value.0);
        left := Q.MakeBoolMust(left, right);
        e := Q.And(e, operand.value.0);
      }
      r := Ok(left);
    }

    /** The two operators of the OR level. */
    method SkipOrOperator() returns (found: bool, negated: bool)
      requires Within()
      modifies this
      ensures Within()
      ensures found ==> G.OrContinues(input, old(pos), pos, negated)
      ensures !found ==> pos == G.SkipWhitespace(input, old(pos))
      ensures !found ==> !G.KeywordAt(input, pos, G.NotWord) && !G.KeywordAt(input, pos, G.OrWord)
    {
      G.SkippedIsWhitespace(input, pos);
      SkipWhitespace();
      if G.KeywordAt(input, pos, G.NotWord) {
        pos := pos + 3;
        return true, true;
      }
      negated := false;
      found := SkipWord(G.OrWord);
    }

    method ParseOrExpr() returns (r: Result<Q.Query, G.ParseError>)
      requires Within()
      modifies this
      ensures Follows(r, G.ParseOr(classify, input, old(pos)))
      decreases |input| - pos, 4
    {
      ghost var start := pos;
      ghost var parsed := G.ParseOr(classify, input, start);
      ghost var operand := G.ParseAnd(classify, input, start);
      var left :- ParseAndExpr();
      ghost var e := operand.value.0;
      while true
        invariant start < pos && Within() && IsBuilt(left, e)
        invariant parsed == G.OrLoop(classify, input, e, pos)
        decreases |input| - pos
      {
        ghost var before := pos;
        var found, negated := SkipOrOperator();
        if !found {
          break;
        }
        operand := G.ParseAnd(classify, input, pos);
        G.OrTurn(classify, input, e, before, pos, negated, operand);
        var right :- ParseAndExpr();
        BuiltTogether(left, e, right, operand.value.0);
        left := if negated then Q.MakeBoolMustNotAnd(left, right) else Q.MakeBoolShould(left, right);
        e := if negated then Q.AndNot(e, operand.value.0) else Q.Or(e, operand.value.0);
      }
      r := Ok(left);
    }

    /** Only white space may be left. The position does not move. */
    method EnsureExhausted() returns (r: Result<(), G.ParseError>)
      requires Within()
      ensures r.Ok? <==> G.SkipWhitespace(input, pos) == |input|
      ensures r.Err? ==> r.error == G.TrailingCharacters
    {
      var p := pos;
      while p < |input| && G.IsWhitespace(input[p])
        invariant p <= |input| && G.SkipWhitespace(input, p) == G.SkipWhitespace(input, pos)
      {
        p := p + 1;
      }
      r := if p < |input| then Err(G.TrailingCharacters) else Ok(());
    }
  }

  method ParseQueryString(classify: G.Classifier, input: string) returns (r: Result<Q.Query, G.ParseError>)
    ensures r == G.ParseQueryString(classify, input)
  {
    var parser := new Parser(classify, input);
    var query :- parser.ParseOrExpr();
    var rest := parser.EnsureExhausted();
    r := if rest.Ok? then Ok(query) else Err(rest.error);
  }
}
