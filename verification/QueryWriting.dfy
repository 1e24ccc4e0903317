// Writing query strings: the ways an expression can be laid out as text, and that the parser reads every layout
// back to the expression it stands for.
module QueryWriting {
  import opened Values
  import opened Queries
  import opened QueryParsing

  /** An expression as it is written: clauses with or without quotes, parentheses where wanted or needed, AND
      spelled or left out, OR and NOT. */
  datatype Layout =
    | Unquoted(clause: Clause)
    | Quoted(field: string, value: string)
    | Grouped(inner: Layout)
    | Joined(left: Layout, spelled: bool, right: Layout)
    | Operated(left: Layout, negated: bool, right: Layout)

  function JoinText(spelled: bool): string {
    if spelled then " AND " else " "
  }

  function OperatorText(negated: bool): string {
    if negated then " NOT " else " OR "
  }

  function Between(t: Layout): string
    requires t.Joined? || t.Operated?
  {
    match t
    case Joined(_, spelled, _) => JoinText(spelled)
    case Operated(_, negated, _) => OperatorText(negated)
  }

  function Show(t: Layout): string {
    match t
    case Unquoted(clause) => ShowClause(clause)
    case Quoted(field, value) => field + ":" + ("\"" + value + "\"")
    case Grouped(inner) => "(" + Show(inner) + ")"
    case Joined(l, _, r) => Show(l) + Between(t) + Show(r)
    case Operated(l, _, r) => Show(l) + Between(t) + Show(r)
  }

  function ShowClause(clause: Clause): string {
    match clause
    case Clause(field, value) => field + ":" + value
    case BareWord(word) => word
  }

  function Operation(left: Written, negated: bool, right: Written): Written {
    if negated then AndNot(left, right) else Or(left, right)
  }

  /** The expression that a layout stands for: AND binds closer than OR and NOT, and operators of one level
      associate to the left. */
  function TreeOf(t: Layout): Written {
    match t
    case Unquoted(clause) => Atom(clause)
    case Quoted(field, value) => Atom(Clause(field, value))
    case Grouped(inner) => TreeOf(inner)
    case Joined(l, _, r) => And(TreeOf(l), TreeOf(r))
    case Operated(l, negated, r) => Operation(TreeOf(l), negated, TreeOf(r))
  }

  predicate IsPrimary(t: Layout) {
    t.Unquoted? || t.Quoted? || t.Grouped?
  }

  /** Operands that bind less stand in parentheses, and an operand behind a left-out AND does not begin with a
      keyword. */
  predicate WellFormed(classify: Classifier, t: Layout) {
    match t
    case Unquoted(clause) => Plain(classify, clause)
    case Quoted(field, value) =>
      IsWord(field) && value != "" && IsQuotable(value) && classify(field, value).Some?
    case Grouped(inner) => WellFormed(classify, inner)
    case Joined(l, spelled, r) =>
      && WellFormed(classify, l) && WellFormed(classify, r)
      && !l.Operated? && IsPrimary(r) && (spelled || !IsKeyword(FirstWord(r)))
    case Operated(l, _, r) => WellFormed(classify, l) && WellFormed(classify, r) && !r.Operated?
  }

  predicate Plain(classify: Classifier, clause: Clause) {
    match clause
    case Clause(field, value) => IsWord(field) && IsPlainValue(value) && classify(field, value).Some?
    case BareWord(word) => IsWord(word)
  }

  /** A value that survives unquoted: no white space, no leading quote, and no keyword or parenthesis
      beginning anywhere in it. */
  predicate IsPlainValue(v: string) {
    && v != [] && v[0] != '"'
    && forall i :: 0 <= i < |v| ==> !IsWhitespace(v[i]) && !IsOperatorStart(v, i)
  }

  /** A value that survives in quotes: every quote in it stands behind a backslash, and no backslash stands alone. */
  predicate IsQuotable(v: string) {
    IsQuotableFrom(v, 0)
  }

  predicate IsQuotableFrom(v: string, i: nat)
    requires i <= |v|
    decreases |v| - i
  {
    if i == |v| then true
    else if v[i] == '\\' then i + 2 <= |v| && IsQuotableFrom(v, i + 2)
    else v[i] != '"' && IsQuotableFrom(v, i + 1)
  }

  predicate IsKeyword(word: string) {
    word == "AND" || word == "OR" || word == "NOT"
  }

  function FirstWord(t: Layout): string
  {
    match t
    case Unquoted(Clause(field, _)) => field
    case Unquoted(BareWord(word)) => word
    case Quoted(field, _) => field
    case Grouped(_) => ""
    case Joined(l, _, _) => FirstWord(l)
    case Operated(l, _, _) => FirstWord(l)
  }

  // ----- where a text stands -----

  /** The text `t` stands at `pos`. */
  ghost predicate At(s: string, pos: nat, t: string) {
    pos + |t| <= |s| && forall k :: 0 <= k < |t| ==> s[pos + k] == t[k]
  }

  lemma AtChar(s: string, pos: nat, t: string, k: nat)
    requires At(s, pos, t) && k < |t|
    ensures s[pos + k] == t[k]
  {
  }

  lemma AtSlice(s: string, pos: nat, t: string)
    requires At(s, pos, t)
    ensures s[pos..pos + |t|] == t
  {
  }

  lemma AtParts(s: string, pos: nat, a: string, b: string)
    requires At(s, pos, a + b)
    ensures At(s, pos, a) && At(s, pos + |a|, b)
  {
    forall k | 0 <= k < |a| ensures s[pos + k] == a[k] {
      assert (a + b)[k] == a[k];
    }
    forall k | 0 <= k < |b| ensures s[pos + |a| + k] == b[k] {
      assert (a + b)[|a| + k] == b[k];
    }
  }

  /** A finished text ends here: at the end of the input, a closing parenthesis, or a blank with no colon behind. */
  predicate Bounded(s: string, pos: nat) {
    && pos <= |s|
    && (pos < |s| ==> s[pos] == ')' || s[pos] == ' ')
    && !CharAt(s, SkipWhitespace(s, pos), ':')
  }

  lemma NoBlank(s: string, pos: nat)
    requires pos <= |s| && (pos < |s| ==> !IsWhitespace(s[pos]))
    ensures SkipWhitespace(s, pos) == pos
  {
  }

  // ----- clauses -----

  lemma WordStandsAlone(s: string, pos: nat, word: string)
    requires IsWord(word) && At(s, pos, word)
    requires pos + |word| < |s| ==> !IsWordChar(s[pos + |word|])
    ensures WordEnd(s, pos) == pos + |word|
    ensures SkipWhitespace(s, pos) == pos && !CharAt(s, pos, '(')
  {
    var end := WordEnd(s, pos);
    WordIsLongest(s, pos);
    if end < pos + |word| {
      AtChar(s, pos, word, end - pos);
      assert false;
    }
    AtChar(s, pos, word, 0);
    NoBlank(s, pos);
  }

  /** What begins inside a bounded value begins in the value itself: a keyword cannot run over its end. */
  lemma OperatorStandsInValue(s: string, pos: nat, v: string, i: nat)
    requires At(s, pos, v) && Bounded(s, pos + |v|) && i < |v| && IsOperatorStart(s, pos + i)
    ensures IsOperatorStart(v, i)
  {
  }

  lemma ValueStandsAlone(s: string, pos: nat, v: string)
    requires IsPlainValue(v) && At(s, pos, v) && Bounded(s, pos + |v|)
    ensures ReadValue(s, pos) == Ok((v, pos + |v|))
  {
    AtChar(s, pos, v, 0);
    AtSlice(s, pos, v);
    NoBlank(s, pos);
    var end := ValueEnd(s, pos);
    ValueIsLongest(s, pos);
    if end < pos + |v| {
      AtChar(s, pos, v, end - pos);
      if IsOperatorStart(s, end) {
        OperatorStandsInValue(s, pos, v, end - pos);
      }
      assert false;
    }
  }

  /** The quote behind a value closes it exactly when the value is quotable. */
  lemma {:induction false} QuoteClosesExactlyWhen(s: string, pos: nat, v: string, i: nat)
    requires At(s, pos, v) && CharAt(s, pos + |v|, '"') && i <= |v|
    ensures ClosingQuote(s, pos + i) == Some(pos + |v|) <==> IsQuotableFrom(v, i)
    decreases |v| - i
  {
    if i < |v| {
      AtChar(s, pos, v, i);
      if v[i] != '\\' {
        QuoteClosesExactlyWhen(s, pos, v, i + 1);
      } else if i + 2 <= |v| {
        QuoteClosesExactlyWhen(s, pos, v, i + 2);
      }
    }
  }

  lemma QuotesStand(s: string, pos: nat, v: string)
    requires At(s, pos, "\"" + v + "\"")
    ensures CharAt(s, pos, '"') && At(s, pos + 1, v) && CharAt(s, pos + 1 + |v|, '"')
    ensures SkipWhitespace(s, pos) == pos && s[pos + 1..pos + 1 + |v|] == v
  {
    AtParts(s, pos, "\"" + v, "\"");
    AtParts(s, pos, "\"", v);
    AtChar(s, pos, "\"", 0);
    AtChar(s, pos + 1 + |v|, "\"", 0);
    NoBlank(s, pos);
    AtSlice(s, pos + 1, v);
  }

  lemma QuotedIsCut(s: string, pos: nat)
    requires CharAt(s, pos, '"')
    ensures var q := ClosingQuote(s, pos + 1);
            ReadValue(s, pos) == if q.Some? then Ok((s[pos + 1..q.value], q.value + 1)) else Err(UnclosedQuote)
  {
    NoBlank(s, pos);
  }

  lemma QuotedReadsExactlyWhen(s: string, pos: nat, v: string)
    requires At(s, pos, "\"" + v + "\"")
    ensures IsQuotable(v) ==> ReadValue(s, pos) == Ok((v, pos + |v| + 2))
    ensures !IsQuotable(v) ==> var r := ReadValue(s, pos); r.Ok? ==> |r.value.0| != |v|
  {
    QuotesStand(s, pos, v);
    QuoteClosesExactlyWhen(s, pos + 1, v, 0);
    QuotedIsCut(s, pos);
  }

  lemma WordParses(classify: Classifier, s: string, pos: nat, word: string)
    requires IsWord(word) && At(s, pos, word) && Bounded(s, pos + |word|)
    ensures ParsePrimary(classify, s, pos) == Ok((Atom(BareWord(word)), pos + |word|))
  {
    WordStandsAlone(s, pos, word);
    AtSlice(s, pos, word);
  }

  lemma FieldNameStands(s: string, pos: nat, field: string)
    requires IsWord(field) && At(s, pos, field) && CharAt(s, pos + |field|, ':')
    ensures WordEnd(s, pos) == pos + |field| && s[pos..pos + |field|] == field
    ensures SkipWhitespace(s, pos + |field|) == pos + |field|
    ensures SkipWhitespace(s, pos) == pos && !CharAt(s, pos, '(')
  {
    WordStandsAlone(s, pos, field);
    AtSlice(s, pos, field);
    NoBlank(s, pos + |field|);
  }

  /** What a clause is for the value that has been read behind its colon. */
  function ClauseWith(classify: Classifier, field: string, read: Result<(string, nat), ParseError>): Parsed {
    if read.Err? then Err(read.error)
    else if read.value.0 == [] then Err(MissingValue)
    else if classify(field, read.value.0).Some? then Ok((Atom(Clause(field, read.value.0)), read.value.1))
    else Err(InvalidClause)
  }

  lemma ClauseIsRead(classify: Classifier, s: string, pos: nat, field: string)
    requires IsWord(field) && At(s, pos, field) && CharAt(s, pos + |field|, ':')
    ensures ParsePrimary(classify, s, pos) == ClauseWith(classify, field, ReadValue(s, pos + |field| + 1))
  {
    FieldNameStands(s, pos, field);
  }

  lemma FieldStands(s: string, pos: nat, field: string, rest: string)
    requires At(s, pos, field + ":" + rest)
    ensures At(s, pos, field) && CharAt(s, pos + |field|, ':') && At(s, pos + |field| + 1, rest)
  {
    AtParts(s, pos, field + ":", rest);
    AtParts(s, pos, field, ":");
    AtChar(s, pos + |field|, ":", 0);
  }

  // ----- operands and operators -----

  /** The text of a layout stands at `pos` and ends, bounded, at `end`. */
  ghost predicate StandsBounded(s: string, pos: nat, t: Layout, end: nat) {
    At(s, pos, Show(t)) && end == pos + |Show(t)| && Bounded(s, end)
  }

  lemma ClauseReads(classify: Classifier, s: string, pos: nat, t: Layout, end: nat)
    requires WellFormed(classify, t) && (t.Unquoted? || t.Quoted?) && StandsBounded(s, pos, t, end)
    ensures ParsePrimary(classify, s, pos) == Ok((TreeOf(t), end))
  {
    match t
    case Unquoted(BareWord(word)) => WordParses(classify, s, pos, word);
    case Unquoted(Clause(field, value)) => PlainReads(classify, s, pos, field, value);
    case Quoted(field, value) => QuotedReads(classify, s, pos, field, value);
  }

  lemma PlainReads(classify: Classifier, s: string, pos: nat, field: string, value: string)
    requires IsWord(field) && IsPlainValue(value) && classify(field, value).Some?
    requires At(s, pos, field + ":" + value) && Bounded(s, pos + |field| + 1 + |value|)
    ensures ParsePrimary(classify, s, pos) == Ok((Atom(Clause(field, value)), pos + |field| + 1 + |value|))
  {
    FieldStands(s, pos, field, value);
    ValueStandsAlone(s, pos + |field| + 1, value);
    ClauseIsRead(classify, s, pos, field);
  }

  lemma QuotedReads(classify: Classifier, s: string, pos: nat, field: string, value: string)
    requires IsWord(field) && IsQuotable(value) && value != "" && classify(field, value).Some?
    requires At(s, pos, field + ":" + ("\"" + value + "\""))
    ensures ParsePrimary(classify, s, pos) == Ok((Atom(Clause(field, value)), pos + |field| + 3 + |value|))
  {
    FieldStands(s, pos, field, "\"" + value + "\"");
    QuotedReadsExactlyWhen(s, pos + |field| + 1, value);
    ClauseIsRead(classify, s, pos, field);
  }

  /** Nothing behind a finished operand continues the AND level. */
  predicate AndStops(s: string, pos: nat) {
    pos <= |s| && NextOperand(s, pos) == None
  }

  lemma ParenthesisStops(classify: Classifier, s: string, pos: nat, e: Written)
    requires pos <= |s| && (pos < |s| ==> s[pos] == ')')
    ensures AndStops(s, pos) && SkipWhitespace(s, pos) == pos && Bounded(s, pos)
    ensures OrLoop(classify, s, e, pos) == Ok((e, pos))
  {
    NoBlank(s, pos);
  }

  /** A blank in front of an operand is skipped. */
  lemma BlankBefore(classify: Classifier, s: string, pos: nat)
    requires CharAt(s, pos, ' ')
    ensures ParsePrimary(classify, s, pos) == ParsePrimary(classify, s, pos + 1)
    ensures ParseAnd(classify, s, pos) == ParseAnd(classify, s, pos + 1)
  {
    assert SkipWhitespace(s, pos) == SkipWhitespace(s, pos + 1);
  }

  /** The keyword between two operands is found, and no other. */
  lemma KeywordFound(s: string, gap: nat, k: Keyword)
    requires At(s, gap, " " + k.Spelling() + " ")
    ensures SkipWhitespace(s, gap) == gap + 1 && KeywordAt(s, gap + 1, k) && Bounded(s, gap)
    ensures !k.AndWord? ==> !Begins(s, gap + 1, AndWord)
    ensures !k.OrWord? ==> !Begins(s, gap + 1, OrWord)
    ensures !k.NotWord? ==> !Begins(s, gap + 1, NotWord)
    ensures CharAt(s, gap + 1 + k.Length(), ' ')
    ensures !CharAt(s, gap + 1, ')') && gap + 1 < |s|
  {
    var text := " " + k.Spelling() + " ";
    AtChar(s, gap, text, 0);
    AtChar(s, gap, text, 1);
    AtChar(s, gap, text, 2);
    AtChar(s, gap, text, k.Length());
    AtChar(s, gap, text, k.Length() + 1);
    NoBlank(s, gap + 1);
  }

  lemma AndFound(s: string, gap: nat)
    requires At(s, gap, " AND ")
    ensures Bounded(s, gap) && NextOperand(s, gap) == Some(gap + 4) && CharAt(s, gap + 4, ' ')
  {
    assert " AND " == " " + AndWord.Spelling() + " ";
    KeywordFound(s, gap, AndWord);
  }

  /** The keyword of the OR level. */
  function OrKeyword(negated: bool): Keyword {
    if negated then NotWord else OrWord
  }

  lemma OrFound(s: string, gap: nat, negated: bool)
    requires At(s, gap, OperatorText(negated))
    ensures Bounded(s, gap) && AndStops(s, gap) && SkipWhitespace(s, gap) == gap + 1
    ensures var from := gap + 1 + OrKeyword(negated).Length();
            OrContinues(s, gap + 1, from, negated) && CharAt(s, from, ' ')
  {
    var k := OrKeyword(negated);
    assert OperatorText(negated) == " " + k.Spelling() + " ";
    KeywordFound(s, gap, k);
    NoBlank(s, gap + 1);
  }

  /** A keyword that stands where a whole word stands is that word. */
  lemma KeywordIsWord(s: string, pos: nat, word: string, k: Keyword)
    requires IsWord(word) && At(s, pos, word) && KeywordAt(s, pos, k)
    requires pos + |word| < |s| ==> !IsWordChar(s[pos + |word|])
    ensures word == k.Spelling()
  {
    var n := k.Length();
    if n < |word| {
      AtChar(s, pos, word, n);
      assert false;
    }
    forall i | 0 <= i < |word| ensures word[i] == k.Spelling()[i] {
      AtChar(s, pos, word, i);
    }
  }

  /** A word that is no keyword, with no word behind it, is not taken for one. */
  lemma NoKeyword(s: string, pos: nat, word: string, k: Keyword)
    requires IsWord(word) && !IsKeyword(word) && At(s, pos, word)
    requires pos + |word| < |s| ==> !IsWordChar(s[pos + |word|])
    ensures !KeywordAt(s, pos, k)
  {
    if KeywordAt(s, pos, k) {
      KeywordIsWord(s, pos, word, k);
    }
  }

  lemma FirstWordStands(classify: Classifier, s: string, pos: nat, t: Layout, end: nat)
    requires WellFormed(classify, t) && IsPrimary(t) && StandsBounded(s, pos, t, end)
    ensures pos < |s| && (t.Grouped? ==> s[pos] == '(')
    ensures !t.Grouped? ==>
              && IsWord(FirstWord(t)) && At(s, pos, FirstWord(t))
              && (pos + |FirstWord(t)| < |s| ==> !IsWordChar(s[pos + |FirstWord(t)|]))
  {
    match t
    case Unquoted(BareWord(word)) =>
    case Unquoted(Clause(field, value)) => FieldStands(s, pos, field, value);
    case Quoted(field, value) => FieldStands(s, pos, field, "\"" + value + "\"");
    case Grouped(inner) =>
      AtParts(s, pos, "(" + Show(inner), ")");
      AtParts(s, pos, "(", Show(inner));
      AtChar(s, pos, "(", 0);
  }

  /** Where AND is left out, the next operand is found by its own beginning. */
  lemma OperandFound(classify: Classifier, s: string, gap: nat, t: Layout, end: nat)
    requires WellFormed(classify, t) && IsPrimary(t) && !IsKeyword(FirstWord(t)) && CharAt(s, gap, ' ')
    requires StandsBounded(s, gap + 1, t, end)
    ensures Bounded(s, gap) && NextOperand(s, gap) == Some(gap + 1)
  {
    FirstWordStands(classify, s, gap + 1, t, end);
    if t.Grouped? {
      NoBlank(s, gap + 1);
    } else {
      AtChar(s, gap + 1, FirstWord(t), 0);
      NoBlank(s, gap + 1);
      NoKeyword(s, gap + 1, FirstWord(t), AndWord);
      NoKeyword(s, gap + 1, FirstWord(t), OrWord);
      NoKeyword(s, gap + 1, FirstWord(t), NotWord);
    }
    assert SkipWhitespace(s, gap) == gap + 1;
  }

  // ----- every layout is read back -----

  lemma {:induction false} PrimaryReads(classify: Classifier, s: string, pos: nat, t: Layout, end: nat)
    requires WellFormed(classify, t) && IsPrimary(t) && StandsBounded(s, pos, t, end)
    ensures ParsePrimary(classify, s, pos) == Ok((TreeOf(t), end))
    decreases t, 0
  {
    match t
    case Grouped(inner) =>
      GroupStands(s, pos, t, end);
      OrReads(classify, s, pos + 1, inner, end - 1);
      GroupParses(classify, s, pos, TreeOf(inner), end - 1);
    case _ => ClauseReads(classify, s, pos, t, end);
  }

  lemma GroupStands(s: string, pos: nat, t: Layout, end: nat)
    requires t.Grouped? && StandsBounded(s, pos, t, end)
    ensures CharAt(s, pos, '(') && end >= 1 && CharAt(s, end - 1, ')')
    ensures StandsBounded(s, pos + 1, t.inner, end - 1) && AndStops(s, end - 1)
  {
    var inner := Show(t.inner);
    AtParts(s, pos, "(" + inner, ")");
    AtParts(s, pos, "(", inner);
    AtChar(s, pos, "(", 0);
    AtChar(s, end - 1, ")", 0);
    NoBlank(s, end - 1);
  }

  lemma GroupParses(classify: Classifier, s: string, pos: nat, e: Written, end: nat)
    requires CharAt(s, pos, '(') && CharAt(s, end, ')')
    requires ParseOr(classify, s, pos + 1) == OrLoop(classify, s, e, SkipWhitespace(s, end))
    ensures ParsePrimary(classify, s, pos) == Ok((e, end + 1))
  {
    ParenthesisStops(classify, s, end, e);
  }

  lemma SidesStand(s: string, pos: nat, t: Layout, gap: nat, end: nat)
    requires (t.Joined? || t.Operated?) && StandsBounded(s, pos, t, end) && gap == pos + |Show(t.left)|
    ensures At(s, pos, Show(t.left)) && At(s, gap, Between(t))
    ensures StandsBounded(s, gap + |Between(t)|, t.right, end)
  {
    AtParts(s, pos, Show(t.left) + Between(t), Show(t.right));
    AtParts(s, pos, Show(t.left), Between(t));
  }

  lemma {:induction false} AndReads(classify: Classifier, s: string, pos: nat, t: Layout, end: nat)
    requires WellFormed(classify, t) && !t.Operated? && StandsBounded(s, pos, t, end)
    ensures ParseAnd(classify, s, pos) == AndLoop(classify, s, TreeOf(t), end)
    decreases t, 1
  {
    if t.Joined? {
      var gap := pos + |Show(t.left)|;
      SidesStand(s, pos, t, gap, end);
      PrimaryReads(classify, s, gap + |Between(t)|, t.right, end);
      JoinedTurn(classify, s, gap, t, end);
      AndReads(classify, s, pos, t.left, gap);
    } else {
      PrimaryReads(classify, s, pos, t, end);
      FirstIsLeft(classify, s, pos, TreeOf(t), end);
    }
  }

  lemma FirstIsLeft(classify: Classifier, s: string, pos: nat, e: Written, end: nat)
    requires pos <= |s| && ParsePrimary(classify, s, pos) == Ok((e, end))
    ensures end <= |s| && ParseAnd(classify, s, pos) == AndLoop(classify, s, e, end)
  {
  }

  /** The AND loop goes on with the right operand. */
  lemma JoinedTurn(classify: Classifier, s: string, gap: nat, t: Layout, end: nat)
    requires t.Joined? && WellFormed(classify, t) && At(s, gap, Between(t))
    requires StandsBounded(s, gap + |Between(t)|, t.right, end)
    requires ParsePrimary(classify, s, gap + |Between(t)|) == Ok((TreeOf(t.right), end))
    ensures Bounded(s, gap) && AndLoop(classify, s, TreeOf(t.left), gap) == AndLoop(classify, s, TreeOf(t), end)
  {
    var from := NextFound(classify, s, gap, t.spelled, t.right, end);
    AndTurn(classify, s, TreeOf(t.left), gap, from, Ok((TreeOf(t.right), end)));
  }

  lemma NextFound(classify: Classifier, s: string, gap: nat, spelled: bool, r: Layout, end: nat) returns (from: nat)
    requires WellFormed(classify, r) && IsPrimary(r) && (spelled || !IsKeyword(FirstWord(r)))
    requires At(s, gap, JoinText(spelled)) && StandsBounded(s, gap + |JoinText(spelled)|, r, end)
    ensures Bounded(s, gap) && NextOperand(s, gap) == Some(from) && gap + |JoinText(spelled)| <= |s|
    ensures ParsePrimary(classify, s, from) == ParsePrimary(classify, s, gap + |JoinText(spelled)|)
  {
    if spelled {
      from := SpelledTurn(classify, s, gap);
    } else {
      AtChar(s, gap, " ", 0);
      OperandFound(classify, s, gap, r, end);
      from := gap + 1;
    }
  }

  lemma SpelledTurn(classify: Classifier, s: string, gap: nat) returns (from: nat)
    requires At(s, gap, " AND ")
    ensures from == gap + 4 && Bounded(s, gap) && NextOperand(s, gap) == Some(from) && from + 1 <= |s|
    ensures ParsePrimary(classify, s, from) == ParsePrimary(classify, s, from + 1)
  {
    AndFound(s, gap);
    from := gap + 4;
    BlankBefore(classify, s, from);
  }

  /** Where the AND level stops, its loop has read what it has read. */
  lemma AndLevelEnds(classify: Classifier, s: string, pos: nat, e: Written, end: nat)
    requires pos <= |s| && AndStops(s, end) && ParseAnd(classify, s, pos) == AndLoop(classify, s, e, end)
    ensures ParseAnd(classify, s, pos) == Ok((e, SkipWhitespace(s, end)))
  {
  }

  lemma OnlyConjunction(classify: Classifier, s: string, pos: nat, e: Written, end: nat)
    requires pos <= |s| && AndStops(s, end) && ParseAnd(classify, s, pos) == AndLoop(classify, s, e, end)
    ensures ParseOr(classify, s, pos) == OrLoop(classify, s, e, SkipWhitespace(s, end))
  {
    AndLevelEnds(classify, s, pos, e, end);
  }

  lemma {:induction false} OrReads(classify: Classifier, s: string, pos: nat, t: Layout, end: nat)
    requires WellFormed(classify, t) && StandsBounded(s, pos, t, end) && AndStops(s, end)
    ensures ParseOr(classify, s, pos) == OrLoop(classify, s, TreeOf(t), SkipWhitespace(s, end))
    decreases t, 2
  {
    match t
    case Operated(l, _, r) =>
      var gap := pos + |Show(l)|;
      OperandsStand(s, pos, t, gap, end);
      OrReads(classify, s, pos, l, gap);
      AndReads(classify, s, gap + |Between(t)|, r, end);
      AndLevelEnds(classify, s, gap + |Between(t)|, TreeOf(r), end);
      SidesRead(classify, s, t, gap, SkipWhitespace(s, end));
    case _ =>
      AndReads(classify, s, pos, t, end);
      OnlyConjunction(classify, s, pos, TreeOf(t), end);
  }

  lemma OperandsStand(s: string, pos: nat, t: Layout, gap: nat, end: nat)
    requires t.Operated? && StandsBounded(s, pos, t, end) && gap == pos + |Show(t.left)|
    ensures StandsBounded(s, pos, t.left, gap) && AndStops(s, gap) && At(s, gap, Between(t))
    ensures StandsBounded(s, gap + |Between(t)|, t.right, end)
  {
    SidesStand(s, pos, t, gap, end);
    OrFound(s, gap, t.negated);
  }

  lemma SidesRead(classify: Classifier, s: string, t: Layout, gap: nat, stop: nat)
    requires t.Operated? && At(s, gap, Between(t))
    requires ParseAnd(classify, s, gap + |Between(t)|) == Ok((TreeOf(t.right), stop))
    ensures stop <= |s|
    ensures OrLoop(classify, s, TreeOf(t.left), SkipWhitespace(s, gap)) == OrLoop(classify, s, TreeOf(t), stop)
  {
    match t
    case Operated(l, negated, r) => OperatedReads(classify, s, gap, TreeOf(l), negated, TreeOf(r), stop);
  }

  lemma OperatedReads(classify: Classifier, s: string, gap: nat, left: Written, negated: bool, right: Written,
                      stop: nat)
    requires At(s, gap, OperatorText(negated))
    requires ParseAnd(classify, s, gap + |OperatorText(negated)|) == Ok((right, stop))
    ensures stop <= |s|
    ensures OrLoop(classify, s, left, SkipWhitespace(s, gap))
            == OrLoop(classify, s, Operation(left, negated, right), stop)
  {
    OrFound(s, gap, negated);
    OperatedTurn(classify, s, gap + 1, left, negated, right, gap + |OperatorText(negated)| - 1, stop);
  }

  /** The OR loop goes on with the right operand. */
  lemma OperatedTurn(classify: Classifier, s: string, pos: nat, left: Written, negated: bool, right: Written, from: nat,
                     stop: nat)
    requires pos <= |s| && OrContinues(s, pos, from, negated) && CharAt(s, from, ' ')
    requires ParseAnd(classify, s, from + 1) == Ok((right, stop))
    ensures stop <= |s|
    ensures OrLoop(classify, s, left, pos) == OrLoop(classify, s, Operation(left, negated, right), stop)
  {
    BlankBefore(classify, s, from);
    OrTurn(classify, s, left, pos, from, negated, Ok((right, stop)));
  }

  lemma {:induction false} LayoutIsAccepted(classify: Classifier, t: Layout)
    requires WellFormed(classify, t)
    ensures Accepted(classify, TreeOf(t))
  {
    match t
    case Unquoted(_) =>
    case Quoted(_, _) =>
    case Grouped(inner) => LayoutIsAccepted(classify, inner);
    case Joined(l, _, r) =>
      LayoutIsAccepted(classify, l);
      LayoutIsAccepted(classify, r);
    case Operated(l, _, r) =>
      LayoutIsAccepted(classify, l);
      LayoutIsAccepted(classify, r);
  }

  /** Every layout is read back as the expression it stands for, and compiled to its query. */
  lemma LayoutReadsBack(classify: Classifier, t: Layout)
    requires WellFormed(classify, t)
    ensures ParseExpression(classify, Show(t)) == Ok(TreeOf(t))
    ensures Accepted(classify, TreeOf(t))
    ensures ParseQueryString(classify, Show(t)) == Ok(Compile(Build(classify, TreeOf(t))))
  {
    LayoutIsAccepted(classify, t);
    ParenthesisStops(classify, Show(t), |Show(t)|, TreeOf(t));
    OrReads(classify, Show(t), 0, t, |Show(t)|);
  }

  // ----- every expression has a layout -----

  function Group(t: Layout): Layout {
    if IsPrimary(t) then t else Grouped(t)
  }

  /** An expression of plain clauses, with parentheses around every operand that is no clause. */
  function LayoutOf(e: Written): Layout {
    match e
    case Atom(clause) => Unquoted(clause)
    case And(l, r) => Joined(Group(LayoutOf(l)), true, Group(LayoutOf(r)))
    case Or(l, r) => Operated(Group(LayoutOf(l)), false, Group(LayoutOf(r)))
    case AndNot(l, r) => Operated(Group(LayoutOf(l)), true, Group(LayoutOf(r)))
  }

  predicate AllPlain(classify: Classifier, e: Written) {
    if e.Atom? then Plain(classify, e.leaf) else AllPlain(classify, e.left) && AllPlain(classify, e.right)
  }

  lemma {:induction false} LayoutOfStandsFor(classify: Classifier, e: Written)
    requires AllPlain(classify, e)
    ensures WellFormed(classify, LayoutOf(e)) && TreeOf(LayoutOf(e)) == e
  {
    if !e.Atom? {
      LayoutOfStandsFor(classify, e.left);
      LayoutOfStandsFor(classify, e.right);
    }
  }

  /** So every expression of plain clauses can be written down and is read back. */
  lemma WrittenReadsBack(classify: Classifier, e: Written)
    requires AllPlain(classify, e)
    ensures ParseExpression(classify, Show(LayoutOf(e))) == Ok(e)
  {
    LayoutOfStandsFor(classify, e);
    LayoutReadsBack(classify, LayoutOf(e));
  }

  /** From text to result: a faithful expression, written out in any layout, finds exactly the documents it
      describes. */
  lemma WrittenQueryFindsItsDocuments(classify: Classifier, t: Layout, w: World)
    requires WellFormed(classify, t) && Accepted(classify, TreeOf(t)) && Faithful(Build(classify, TreeOf(t)))
    ensures var parsed := ParseQueryString(classify, Show(t));
            parsed.Ok? && (Matches(parsed.value, w) <==> Meaning(Build(classify, TreeOf(t)), w))
  {
    LayoutReadsBack(classify, t);
    FaithfulKeepsMeaning(Build(classify, TreeOf(t)), w);
  }

  // ----- exactly which clauses survive being written down -----

  /** The loops only ever build operators around what they start from. */
  lemma {:induction false} AndLoopKeepsAtoms(classify: Classifier, s: string, left: Written, pos: nat)
    requires pos <= |s|
    ensures (var r := AndLoop(classify, s, left, pos); r.Ok? ==> r.value.0 == left || r.value.0.And?)
    decreases |s| - pos
  {
    var next := NextOperand(s, pos);
    if next.Some? {
      var from := next.value;
      var right := ParsePrimary(classify, s, from);
      AndTurn(classify, s, left, pos, from, right);
      if right.Ok? {
        AndLoopKeepsAtoms(classify, s, And(left, right.value.0), right.value.1);
      }
    }
  }

  lemma {:induction false} OrLoopKeepsAtoms(classify: Classifier, s: string, left: Written, pos: nat)
    requires pos <= |s|
    ensures (var r := OrLoop(classify, s, left, pos); r.Ok? ==> r.value.0 == left || r.value.0.Or? || r.value.0.AndNot?)
    decreases |s| - pos
  {
    var next := SkipWhitespace(s, pos);
    var k := if KeywordAt(s, next, NotWord) then NotWord else OrWord;
    if KeywordAt(s, next, k) {
      var right := ParseAnd(classify, s, next + k.Length());
      if right.Ok? {
        var (e, end) := right.value;
        OrLoopKeepsAtoms(classify, s, if k.NotWord? then AndNot(left, e) else Or(left, e), end);
      }
    }
  }

  lemma AtomIsPrimary(classify: Classifier, s: string, clause: Clause)
    requires ParseExpression(classify, s) == Ok(Atom(clause))
    ensures (var r := ParsePrimary(classify, s, 0); r.Ok? && r.value.0 == Atom(clause))
  {
    var first := ParsePrimary(classify, s, 0);
    var conjunction := ParseAnd(classify, s, 0);
    AndLoopKeepsAtoms(classify, s, first.value.0, first.value.1);
    OrLoopKeepsAtoms(classify, s, conjunction.value.0, conjunction.value.1);
  }

  lemma ReadBackIsPlain(s: string, pos: nat, v: string)
    requires v != [] && At(s, pos, v) && |s| == pos + |v|
    requires (var r := ReadValue(s, pos); r.Ok? && r.value.0 == v)
    ensures IsPlainValue(v)
  {
    var start := SkipWhitespace(s, pos);
    SkippedIsWhitespace(s, pos);
    assert start == pos && s[start] != '"' && ValueEnd(s, start) == |s|;
    ValueIsLongest(s, start);
    forall i | 0 <= i < |v| ensures !IsWhitespace(v[i]) && !IsOperatorStart(v, i) {
      OperatorStandsInText(s, pos, v, i);
    }
    AtChar(s, pos, v, 0);
  }

  lemma OperatorStandsInText(s: string, pos: nat, v: string, i: nat)
    requires At(s, pos, v) && i < |v|
    ensures s[pos + i] == v[i] && (IsOperatorStart(v, i) ==> IsOperatorStart(s, pos + i))
  {
    AtChar(s, pos, v, i);
    if i + 1 < |v| {
      AtChar(s, pos, v, i + 1);
    }
    if i + 2 < |v| {
      AtChar(s, pos, v, i + 2);
    }
  }

  /** A field and an unquoted value written as a query are read back exactly when no keyword or parenthesis
      begins anywhere in the value, even in the middle of a word. */
  lemma ClauseSurvivesExactlyWhen(classify: Classifier, field: string, value: string)
    requires IsWord(field)
    ensures ParseExpression(classify, field + ":" + value) == Ok(Atom(Clause(field, value)))
            <==> IsPlainValue(value) && classify(field, value).Some?
  {
    var s := field + ":" + value;
    if IsPlainValue(value) && classify(field, value).Some? {
      LayoutReadsBack(classify, Unquoted(Clause(field, value)));
    }
    if ParseExpression(classify, s) == Ok(Atom(Clause(field, value))) {
      AtomIsPrimary(classify, s, Clause(field, value));
      FieldStands(s, 0, field, value);
      PrimaryIsPlain(classify, s, field, value);
    }
  }

  lemma ClauseHasValue(classify: Classifier, s: string, field: string, value: string)
    requires IsWord(field) && At(s, 0, field) && CharAt(s, |field|, ':')
    requires (var r := ParsePrimary(classify, s, 0); r.Ok? && r.value.0 == Atom(Clause(field, value)))
    ensures value != [] && classify(field, value).Some?
    ensures (var r := ReadValue(s, |field| + 1); r.Ok? && r.value.0 == value)
  {
    ClauseIsRead(classify, s, 0, field);
  }

  lemma PrimaryIsPlain(classify: Classifier, s: string, field: string, value: string)
    requires IsWord(field) && At(s, 0, field) && CharAt(s, |field|, ':') && At(s, |field| + 1, value)
    requires |s| == |field| + 1 + |value|
    requires (var r := ParsePrimary(classify, s, 0); r.Ok? && r.value.0 == Atom(Clause(field, value)))
    ensures IsPlainValue(value) && classify(field, value).Some?
  {
    ClauseHasValue(classify, s, field, value);
    ReadBackIsPlain(s, |field| + 1, value);
  }

  /** A field and a value in quotes are read back exactly when every quote in the value stands behind a backslash
      and no backslash stands alone. */
  lemma QuotedSurvivesExactlyWhen(classify: Classifier, field: string, value: string)
    requires IsWord(field) && value != ""
    ensures ParseExpression(classify, Show(Quoted(field, value))) == Ok(Atom(Clause(field, value)))
            <==> IsQuotable(value) && classify(field, value).Some?
  {
    var s := Show(Quoted(field, value));
    if IsQuotable(value) && classify(field, value).Some? {
      LayoutReadsBack(classify, Quoted(field, value));
    }
    if ParseExpression(classify, s) == Ok(Atom(Clause(field, value))) {
      AtomIsPrimary(classify, s, Clause(field, value));
      PrimaryIsQuotable(classify, s, field, value);
    }
  }

  lemma PrimaryIsQuotable(classify: Classifier, s: string, field: string, value: string)
    requires IsWord(field) && s == Show(Quoted(field, value))
    requires (var r := ParsePrimary(classify, s, 0); r.Ok? && r.value.0 == Atom(Clause(field, value)))
    ensures IsQuotable(value) && classify(field, value).Some?
  {
    FieldStands(s, 0, field, "\"" + value + "\"");
    ClauseHasValue(classify, s, field, value);
    QuotedReadsExactlyWhen(s, |field| + 1, value);
  }
}
