// The query-string parser on ASCII input: its grammar as functions on positions, its progress, and the
// round trip of rendered expressions.
module QueryParsing {
  import opened Values
  import opened Queries
  import Levenshtein

  datatype ParseError =
    | UnexpectedEnd
    | MissingValue
    | UnclosedQuote
    | ExpectedClosingParenthesis
    | InvalidClause
    | TrailingCharacters

  /** A clause as it is written: a field with a value, or a bare word. */
  datatype Clause =
    | Clause(field: string, value: string)
    | BareWord(word: string)

  type Written = Tree<Clause>

  type Parsed = Result<(Written, nat), ParseError>

  // ----- the query of a clause -----

  /** Library parsers: JSON, numbers, and sizes. */
  datatype Readers = Readers(
    json: string -> Option<Json>,
    number: string -> Option<Json>,
    size: string -> Option<nat>)

  predicate StartsWith(s: string, prefix: string) {
    |prefix| <= |s| && s[..|prefix|] == prefix
  }

  predicate DotsAt(s: string, k: nat) {
    k + 1 < |s| && s[k] == '.' && s[k + 1] == '.'
  }

  /** The first two dots in a row. */
  function FirstDots(s: string, from: nat): (r: Option<nat>)
    ensures r.Some? ==> from <= r.value && DotsAt(s, r.value)
    ensures forall k :: from <= k && (r.Some? ==> k < r.value) ==> !DotsAt(s, k)
    decreases |s| - from
  {
    if from >= |s| then None else if DotsAt(s, from) then Some(from) else FirstDots(s, from + 1)
  }

  function FirstTilde(s: string, from: nat): (r: Option<nat>)
    ensures r.Some? ==> from <= r.value < |s| && s[r.value] == '~'
    ensures forall k :: from <= k < |s| && (r.Some? ==> k < r.value) ==> s[k] != '~'
    decreases |s| - from
  {
    if from >= |s| then None else if s[from] == '~' then Some(from) else FirstTilde(s, from + 1)
  }

  function ReadOperand(readers: Readers, value: string): Operand {
    match readers.json(value)
    case Some(json) => Literal(json)
    case None => Word(value)
  }

  predicate IsAuto(suffix: string) {
    && |suffix| == 4 && suffix[0] in "aA" && suffix[1] in "uU" && suffix[2] in "tT" && suffix[3] in "oO"
  }

  /** A range between two numbers. */
  function Between(readers: Readers, field: string, low: string, high: string): Option<Leaf> {
    match (readers.number(low), readers.number(high))
    case (Some(a), Some(b)) => Some(Range(field, Some(a), None, Some(b), None))
    case _ => None
  }

  function TolerantTerm(readers: Readers, field: string, value: string, suffix: string): Option<Leaf> {
    if suffix == "" then None
    else if IsAuto(suffix) then Some(Term(field, ReadOperand(readers, value), Some(Levenshtein.Auto)))
    else
      match readers.size(suffix)
      case Some(n) => Some(Term(field, ReadOperand(readers, value), Some(Levenshtein.Exact(n))))
      case None => None
  }

  /** What stands before the last tilde: a value, and behind another tilde its tolerance. */
  function Tolerant(readers: Readers, field: string, rest: string): Option<Leaf> {
    match FirstTilde(rest, 0)
    case Some(k) => TolerantTerm(readers, field, rest[..k], rest[k + 1..])
    case None => TolerantTerm(readers, field, rest, "")
  }

  function Plain(readers: Readers, field: string, value: string): Leaf {
    if '*' in value || '?' in value then Wildcard(field, value) else Term(field, ReadOperand(readers, value), None)
  }

  /** The query of a field and a value, or nothing where the clause is refused. */
  function Classify(readers: Readers, field: string, value: string): Option<Leaf> {
    if StartsWith(value, ">=") then
      match readers.number(value[2..])
      case Some(n) => Some(Range(field, Some(n), None, None, None))
      case None => None
    else if StartsWith(value, "<=") then
      match readers.number(value[2..])
      case Some(n) => Some(Range(field, None, None, Some(n), None))
      case None => None
    else if StartsWith(value, ">") then
      match readers.number(value[1..])
      case Some(n) => Some(Range(field, None, Some(n), None, None))
      case None => None
    else if StartsWith(value, "<") then
      match readers.number(value[1..])
      case Some(n) => Some(Range(field, None, None, None, Some(n)))
      case None => None
    else
      var dots := FirstDots(value, 0);
      if dots.Some? && value != ".." then
        Between(readers, field, value[..dots.value], value[dots.value + 2..])
      else if value != "" && value[|value| - 1] == '~' then Tolerant(readers, field, value[..|value| - 1])
      else Some(Plain(readers, field, value))
  }

  /** Any way to turn clauses into queries; the grammar does not depend on it. */
  type Classifier = (string, string) -> Option<Leaf>

  function ClassifierOf(readers: Readers): Classifier {
    (field: string, value: string) => Classify(readers, field, value)
  }

  predicate Accepts(classify: Classifier, clause: Clause) {
    clause.Clause? ==> classify(clause.field, clause.value).Some?
  }

  predicate Accepted(classify: Classifier, e: Written) {
    if e.Atom? then Accepts(classify, e.leaf) else Accepted(classify, e.left) && Accepted(classify, e.right)
  }

  /** A bare word is a term of the field `tag`. */
  function LeafOf(classify: Classifier, clause: Clause): Leaf
    requires Accepts(classify, clause)
  {
    match clause
    case Clause(field, value) => classify(field, value).value
    case BareWord(word) => Term("tag", Word(word), None)
  }

  function Build(classify: Classifier, e: Written): Expr
    requires Accepted(classify, e)
  {
    match e
    case Atom(clause) => Atom(LeafOf(classify, clause))
    case And(l, r) => And(Build(classify, l), Build(classify, r))
    case Or(l, r) => Or(Build(classify, l), Build(classify, r))
    case AndNot(l, r) => AndNot(Build(classify, l), Build(classify, r))
  }

  // ----- which clauses build which queries -----

  /** A bare word and its `tag:` clause build the same query, unless the word reads as JSON. */
  lemma BareWordIsTagClauseExactlyWhen(readers: Readers, word: string)
    requires IsWord(word)
    ensures Classify(readers, "tag", word).Some?
    ensures LeafOf(ClassifierOf(readers), Clause("tag", word)) == LeafOf(ClassifierOf(readers), BareWord(word))
       <==> readers.json(word).None?
  {
  }

  /** Neither a comparison nor a range. */
  predicate IsUnranged(value: string) {
    && value != "" && value[0] != '<' && value[0] != '>'
    && FirstDots(value, 0).None?
  }

  predicate IsTolerance(readers: Readers, suffix: string) {
    suffix != "" && (IsAuto(suffix) || readers.size(suffix).Some?)
  }

  /** A term tolerates misspellings exactly when its value ends with a tolerance between two tildes; without
      the second one, the tilde and the tolerance are part of the word. */
  lemma TolerantExactlyWhen(readers: Readers, field: string, base: string, suffix: string)
    requires '~' !in base && IsUnranged(base + "~" + suffix) && suffix != "" && suffix[|suffix| - 1] != '~'
    ensures Classify(readers, field, base + "~" + suffix) == Some(Plain(readers, field, base + "~" + suffix))
    ensures var leaf := Classify(readers, field, base + "~" + suffix + "~");
            (leaf.Some? && leaf.value.Term? && leaf.value.fuzziness.Some?) <==> IsTolerance(readers, suffix)
  {
    var value := base + "~" + suffix;
    UnrangedIs(readers, field, value);
    NoNewDots(value);
    UnrangedIs(readers, field, value + "~");
    assert (value + "~")[..|value|] == value;
    TolerantBetween(readers, field, base, suffix, value);
  }

  lemma UnrangedIs(readers: Readers, field: string, value: string)
    requires IsUnranged(value)
    ensures Classify(readers, field, value)
         == if value[|value| - 1] == '~' then Tolerant(readers, field, value[..|value| - 1])
            else Some(Plain(readers, field, value))
  {
  }

  lemma TolerantBetween(readers: Readers, field: string, base: string, suffix: string, value: string)
    requires '~' !in base && value == base + "~" + suffix
    ensures var leaf := Tolerant(readers, field, value);
            (leaf.Some? && leaf.value.Term? && leaf.value.fuzziness.Some?) <==> IsTolerance(readers, suffix)
  {
    TildeStands(base, suffix, value);
  }

  lemma NoNewDots(value: string)
    requires IsUnranged(value)
    ensures IsUnranged(value + "~")
  {
    assert forall k :: DotsAt(value + "~", k) ==> DotsAt(value, k);
  }

  lemma TildeStands(base: string, suffix: string, value: string)
    requires '~' !in base && value == base + "~" + suffix
    ensures FirstTilde(value, 0) == Some(|base|)
    ensures value[..|base|] == base && value[|base| + 1..] == suffix
  {
    assert value[|base|] == '~';
    assert forall k :: 0 <= k < |base| ==> value[k] == base[k];
  }

  // ----- characters -----

  predicate IsWordChar(c: char) {
    '0' <= c <= '9' || 'A' <= c <= 'Z' || 'a' <= c <= 'z' || c == '_' || c == '-'
  }

  predicate IsWord(s: string) {
    s != [] && forall i :: 0 <= i < |s| ==> IsWordChar(s[i])
  }

  predicate IsWhitespace(c: char) {
    c == ' ' || '\t' <= c <= '\r'
  }

  /** Of ASCII, the blank, the tabulators, and the characters that end a line or a page. */
  lemma WhitespaceExactlyWhen(c: char)
    ensures IsWhitespace(c) <==> c as int in {9, 10, 11, 12, 13, 32}
  {
  }

  predicate CharAt(s: string, pos: nat, c: char) {
    pos < |s| && s[pos] == c
  }

  datatype Keyword = AndWord | OrWord | NotWord {
    function Length(): nat {
      if OrWord? then 2 else 3
    }

    function Spelling(): (s: string)
      ensures |s| == Length()
    {
      match this
      case AndWord => "AND"
      case OrWord => "OR"
      case NotWord => "NOT"
    }
  }

  predicate Begins(s: string, pos: nat, k: Keyword) {
    && pos + k.Length() <= |s|
    && match k
       case AndWord => s[pos] == 'A' && s[pos + 1] == 'N' && s[pos + 2] == 'D'
       case OrWord => s[pos] == 'O' && s[pos + 1] == 'R'
       case NotWord => s[pos] == 'N' && s[pos + 1] == 'O' && s[pos + 2] == 'T'
  }

  /** A whole keyword: not followed by a character that could continue a word. */
  predicate KeywordAt(s: string, pos: nat, k: Keyword) {
    Begins(s, pos, k) && (pos + k.Length() < |s| ==> !IsWordChar(s[pos + k.Length()]))
  }

  predicate IsOperatorStart(s: string, pos: nat) {
    || Begins(s, pos, AndWord) || Begins(s, pos, OrWord) || Begins(s, pos, NotWord)
    || CharAt(s, pos, '(') || CharAt(s, pos, ')')
  }

  /** A bare value ends where a parenthesis or the letters of an operator stand, whatever follows them. */
  lemma OperatorStartExactlyWhen(s: string, pos: nat)
    requires pos <= |s|
    ensures IsOperatorStart(s, pos)
       <==> "AND" <= s[pos..] || "OR" <= s[pos..] || "NOT" <= s[pos..] || "(" <= s[pos..] || ")" <= s[pos..]
  {
    assert Begins(s, pos, AndWord) <==> "AND" <= s[pos..];
    assert Begins(s, pos, OrWord) <==> "OR" <= s[pos..];
    assert Begins(s, pos, NotWord) <==> "NOT" <= s[pos..];
    assert CharAt(s, pos, '(') <==> "(" <= s[pos..];
    assert CharAt(s, pos, ')') <==> ")" <= s[pos..];
  }

  predicate IsAtOperator(s: string, pos: nat) {
    KeywordAt(s, pos, AndWord) || KeywordAt(s, pos, OrWord) || KeywordAt(s, pos, NotWord)
  }

  function SkipWhitespace(s: string, pos: nat): (r: nat)
    requires pos <= |s|
    ensures pos <= r <= |s|
    decreases |s| - pos
  {
    if pos < |s| && IsWhitespace(s[pos]) then SkipWhitespace(s, pos + 1) else pos
  }

  lemma {:induction false} SkippedIsWhitespace(s: string, pos: nat)
    requires pos <= |s|
    ensures var r := SkipWhitespace(s, pos);
            && (r < |s| ==> !IsWhitespace(s[r]))
            && forall k :: pos <= k < r ==> IsWhitespace(s[k])
    decreases |s| - pos
  {
    if pos < |s| && IsWhitespace(s[pos]) {
      SkippedIsWhitespace(s, pos + 1);
    }
  }

  function WordEnd(s: string, pos: nat): (r: nat)
    requires pos <= |s|
    ensures pos <= r <= |s|
    decreases |s| - pos
  {
    if pos < |s| && IsWordChar(s[pos]) then WordEnd(s, pos + 1) else pos
  }

  lemma {:induction false} WordIsLongest(s: string, pos: nat)
    requires pos <= |s|
    ensures var r := WordEnd(s, pos);
            && (r < |s| ==> !IsWordChar(s[r]))
            && forall k :: pos <= k < r ==> IsWordChar(s[k])
    decreases |s| - pos
  {
    if pos < |s| && IsWordChar(s[pos]) {
      WordIsLongest(s, pos + 1);
    }
  }

  /** An unquoted value ends where a keyword begins, even inside a word. */
  function ValueEnd(s: string, pos: nat): (r: nat)
    requires pos <= |s|
    ensures pos <= r <= |s|
    decreases |s| - pos
  {
    if pos < |s| && !IsWhitespace(s[pos]) && !IsOperatorStart(s, pos) then ValueEnd(s, pos + 1) else pos
  }

  lemma {:induction false} ValueIsLongest(s: string, pos: nat)
    requires pos <= |s|
    ensures var r := ValueEnd(s, pos);
            && (r < |s| ==> IsWhitespace(s[r]) || IsOperatorStart(s, r))
            && forall k :: pos <= k < r ==> !IsWhitespace(s[k]) && !IsOperatorStart(s, k)
    decreases |s| - pos
  {
    if pos < |s| && !IsWhitespace(s[pos]) && !IsOperatorStart(s, pos) {
      ValueIsLongest(s, pos + 1);
    }
  }

  /** The position of the closing quote; a backslash takes the next character with it. */
  function ClosingQuote(s: string, pos: nat): (r: Option<nat>)
    requires pos <= |s|
    ensures r.Some? ==> pos <= r.value < |s| && s[r.value] == '"'
    decreases |s| - pos
  {
    if pos >= |s| then None
    else if s[pos] == '\\' && pos + 1 < |s| then ClosingQuote(s, pos + 2)
    else if s[pos] == '"' then Some(pos)
    else ClosingQuote(s, pos + 1)
  }

  function ReadValue(s: string, pos: nat): (r: Result<(string, nat), ParseError>)
    requires pos <= |s|
    ensures r.Ok? ==> pos <= r.value.1 <= |s|
  {
    var start := SkipWhitespace(s, pos);
    if start >= |s| then Ok(("", start))
    else if s[start] == '"' then
      match ClosingQuote(s, start + 1)
      case Some(q) => Ok((s[start + 1..q], q + 1))
      case None => Err(UnclosedQuote)
    else Ok((s[start..ValueEnd(s, start)], ValueEnd(s, start)))
  }

  // ----- grammar -----

  /** A field and its value with the position behind them, or nothing where no colon follows a word. */
  function FieldValue(s: string, pos: nat): (r: Result<Option<(string, string, nat)>, ParseError>)
    requires pos <= |s|
    ensures r.Ok? && r.value.Some? ==> pos < r.value.value.2 <= |s|
  {
    var end := WordEnd(s, pos);
    var word := s[pos..end];
    var colon := SkipWhitespace(s, end);
    if word == [] || !CharAt(s, colon, ':') then Ok(None)
    else
      var value :- ReadValue(s, colon + 1);
      if value.0 == [] then Err(MissingValue) else Ok(Some((word, value.0, value.1)))
  }

  function ParseClause(classify: Classifier, s: string, pos: nat): (r: Parsed)
    requires pos <= |s|
    ensures r.Ok? ==> pos < r.value.1 <= |s|
    ensures r.Ok? ==> Accepted(classify, r.value.0)
  {
    var pair :- FieldValue(s, pos);
    match pair
    case Some((field, value, end)) =>
      if classify(field, value).Some? then Ok((Atom(Clause(field, value)), end)) else Err(InvalidClause)
    case None =>
      var end := WordEnd(s, pos);
      if end == pos then Err(UnexpectedEnd) else Ok((Atom(BareWord(s[pos..end])), end))
  }

  function ParsePrimary(classify: Classifier, s: string, pos: nat): (r: Parsed)
    requires pos <= |s|
    ensures r.Ok? ==> pos < r.value.1 <= |s|
    ensures r.Ok? ==> Accepted(classify, r.value.0)
    decreases |s| - pos, 1
  {
    var start := SkipWhitespace(s, pos);
    if CharAt(s, start, '(') then
      var inner :- ParseOr(classify, s, start + 1);
      var close := SkipWhitespace(s, inner.1);
      if CharAt(s, close, ')') then Ok((inner.0, close + 1)) else Err(ExpectedClosingParenthesis)
    else ParseClause(classify, s, start)
  }

  function ParseAnd(classify: Classifier, s: string, pos: nat): (r: Parsed)
    requires pos <= |s|
    ensures r.Ok? ==> pos < r.value.1 <= |s|
    ensures r.Ok? ==> Accepted(classify, r.value.0)
    decreases |s| - pos, 2
  {
    var first :- ParsePrimary(classify, s, pos);
    AndLoop(classify, s, first.0, first.1)
  }

  /** Where the AND level goes on: behind an AND, or with a clause that follows without one. */
  function NextOperand(s: string, pos: nat): (r: Option<nat>)
    requires pos <= |s|
    ensures r.Some? ==> pos <= r.value <= |s|
  {
    var next := SkipWhitespace(s, pos);
    if CharAt(s, next, ')') || next >= |s| then None
    else if KeywordAt(s, next, AndWord) then Some(next + 3)
    else if IsAtOperator(s, next) then None
    else Some(next)
  }

  /** The loop of the AND level, with what has been read so far. */
  function AndLoop(classify: Classifier, s: string, left: Written, pos: nat): (r: Parsed)
    requires pos <= |s|
    ensures r.Ok? ==> pos <= r.value.1 <= |s|
    ensures r.Ok? && Accepted(classify, left) ==> Accepted(classify, r.value.0)
    decreases |s| - pos, 3
  {
    match NextOperand(s, pos)
    case None => Ok((left, SkipWhitespace(s, pos)))
    case Some(from) =>
      var right :- ParsePrimary(classify, s, from);
      AndLoop(classify, s, And(left, right.0), right.1)
  }

  function ParseOr(classify: Classifier, s: string, pos: nat): (r: Parsed)
    requires pos <= |s|
    ensures r.Ok? ==> pos < r.value.1 <= |s|
    ensures r.Ok? ==> Accepted(classify, r.value.0)
    decreases |s| - pos, 4
  {
    var first :- ParseAnd(classify, s, pos);
    OrLoop(classify, s, first.0, first.1)
  }

  /** The loop of the OR level; NOT is an operator between two operands here. */
  function OrLoop(classify: Classifier, s: string, left: Written, pos: nat): (r: Parsed)
    requires pos <= |s|
    ensures r.Ok? ==> pos <= r.value.1 <= |s|
    ensures r.Ok? && Accepted(classify, left) ==> Accepted(classify, r.value.0)
    decreases |s| - pos, 3
  {
    var next := SkipWhitespace(s, pos);
    if KeywordAt(s, next, NotWord) then
      var right :- ParseAnd(classify, s, next + 3);
      OrLoop(classify, s, AndNot(left, right.0), right.1)
    else if KeywordAt(s, next, OrWord) then
      var right :- ParseAnd(classify, s, next + 2);
      OrLoop(classify, s, Or(left, right.0), right.1)
    else Ok((left, next))
  }

  function ParseExpression(classify: Classifier, s: string): (r: Result<Written, ParseError>)
    ensures r.Ok? ==> Accepted(classify, r.value)
  {
    var r :- ParseOr(classify, s, 0);
    if SkipWhitespace(s, r.1) < |s| then Err(TrailingCharacters) else Ok(r.0)
  }

  function ParseQueryString(classify: Classifier, s: string): Result<Query, ParseError> {
    var e :- ParseExpression(classify, s);
    Ok(Compile(Build(classify, e)))
  }

  // ----- one turn of each loop -----

  lemma AndTurn(classify: Classifier, s: string, left: Written, pos: nat, from: nat, right: Parsed)
    requires pos <= |s| && NextOperand(s, pos) == Some(from) && right == ParsePrimary(classify, s, from)
    ensures AndLoop(classify, s, left, pos)
            == if right.Err? then right else AndLoop(classify, s, And(left, right.value.0), right.value.1)
  {
  }

  /** The OR loop goes on behind a NOT or an OR. */
  predicate OrContinues(s: string, pos: nat, from: nat, negated: bool)
    requires pos <= |s|
  {
    var next := SkipWhitespace(s, pos);
    if negated then KeywordAt(s, next, NotWord) && from == next + 3 else KeywordAt(s, next, OrWord) && from == next + 2
  }

  lemma OrTurn(classify: Classifier, s: string, left: Written, pos: nat, from: nat, negated: bool, right: Parsed)
    requires pos <= |s| && OrContinues(s, pos, from, negated) && right == ParseAnd(classify, s, from)
    ensures OrLoop(classify, s, left, pos)
            == if right.Err? then right
               else OrLoop(classify, s, if negated then AndNot(left, right.value.0) else Or(left, right.value.0),
                           right.value.1)
  {
    if negated {
      NegatedTurn(classify, s, left, pos, from, right);
    } else {
      PlainTurn(classify, s, left, pos, from, right);
    }
  }

  lemma NegatedTurn(classify: Classifier, s: string, left: Written, pos: nat, from: nat, right: Parsed)
    requires pos <= |s| && OrContinues(s, pos, from, true) && right == ParseAnd(classify, s, from)
    ensures OrLoop(classify, s, left, pos)
            == if right.Err? then right else OrLoop(classify, s, AndNot(left, right.value.0), right.value.1)
  {
  }

  lemma PlainTurn(classify: Classifier, s: string, left: Written, pos: nat, from: nat, right: Parsed)
    requires pos <= |s| && OrContinues(s, pos, from, false) && right == ParseAnd(classify, s, from)
    ensures OrLoop(classify, s, left, pos)
            == if right.Err? then right else OrLoop(classify, s, Or(left, right.value.0), right.value.1)
  {
  }
}
