/**
 The retrieval and prompt choice of the `chat` endpoint in app.py. The user's
 message is lowered and split into terms; the terms, joined with '|', form a
 regular expression that is searched, ignoring case, in the `keyword` column
 of the health table. The first row it finds supplies a context line, and the
 prompt handed to the language model opens with that context when there is
 one. The model call itself is a parameter: a function from the prompt to the
 text it produced or to a failure.
 */
module HealthChat {
  import opened Text
  import opened Frame

  /** A row of the health table. A missing `keyword` cell is `None`. */
  datatype HealthRow = HealthRow(
    keyword: Option<string>,
    diseaseName: string,
    symptoms: string,
    solution: string,
    medicineRecommendation: string,
    disclaimer: string)

  /** What the language model call gave back: its text, or an exception. */
  datatype Generation = Generated(text: string) | Failed

  const ConfigError: string := "AI Model configured नहीं है। कृपया API key जांचें।"

  const Apology: string := "क्षमा करें, AI से संपर्क करने में कोई समस्या हुई।"

  /** The characters that are special in a regular expression, apart from '|'. */
  const RegexMeta: set<char> := {'.', '^', '$', '*', '+', '?', '{', '}', '[', ']', '\\', '(', ')'}

  /** The message has no regular-expression syntax other than alternation, so
      every branch of the pattern built from it is a literal string. */
  predicate LiteralText(s: string) {
    forall i :: 0 <= i < |s| ==> s[i] !in RegexMeta
  }

  /** `user_message.split()` of the lowered message. */
  function Terms(message: string): seq<string> {
    Words(Lower(message))
  }

  /** `'|'.join(search_terms)`. */
  function Pattern(terms: seq<string>): string {
    Join(terms, '|')
  }

  /** The branches of the alternation `p`: the pieces between its '|' characters. */
  function Branches(p: string): (r: seq<string>)
    ensures |r| >= 1
  {
    if p == [] then [""]
    else
      var rest := Branches(p[1..]);
      if p[0] == '|' then [""] + rest else [[p[0]] + rest[0]] + rest[1..]
  }

  /** A search for the literal alternation `p`, ignoring case, finds something in `text`. */
  predicate PatternFinds(p: string, text: string) {
    var bs := Branches(p);
    exists k :: 0 <= k < |bs| && IsSubstring(Lower(bs[k]), Lower(text))
  }

  /** The mask `health_df['keyword'].str.contains(p, case=False, na=False)`. */
  function KeywordMatches(p: string): HealthRow -> bool {
    (row: HealthRow) => row.keyword.Some? && PatternFinds(p, row.keyword.value)
  }

  /** The context line made from a matching row. */
  function ContextOf(row: HealthRow): string {
    "बीमारी: " + row.diseaseName + ", लक्षण: " + row.symptoms + ", उपचार: " + row.solution
    + ", दवा सुझाव: " + row.medicineRecommendation + ", डिस्क्लेमर: " + row.disclaimer
  }

  /** The retrieval step: empty when the table is empty or no row matches,
      otherwise the context line of the first matching row. */
  function Context(message: string, health: seq<HealthRow>): string
    requires LiteralText(message)
  {
    if health == [] then ""
    else
      var relevant := Select(health, KeywordMatches(Pattern(Terms(message))));
      if relevant != [] then ContextOf(relevant[0]) else ""
  }

  // Each prompt template of app.py:75 and app.py:77 is one literal there. Here its
  // opening words are constants of their own, so that `PromptChoice` can read their
  // first characters, and the long tails are split over lines.
  const ContextLead: string := "Context: "

  const QuestionLead: string := "User's Question: "

  const WithContextTail: string :=
    "\n\nBased on the context, answer the user's question in a helpful, conversational manner "
    + "in pure Hindi (Devanagari script). Always advise consulting a doctor."

  const NoContextTail: string :=
    "\n\nAnswer the user's health question in a helpful, conversational manner in pure Hindi "
    + "(Devanagari script). Since you have no specific context, state that this is general "
    + "information and strongly advise consulting a doctor."

  /** The prompt for the lowered question, with or without context. */
  function Prompt(question: string, context: string): string {
    if context != "" then ContextLead + context + "\n\n" + QuestionLead + question + WithContextTail
    else QuestionLead + question + NoContextTail
  }

  /** The prompt `chat` builds for a message. */
  function ChatPrompt(message: string, health: seq<HealthRow>): string
    requires LiteralText(message)
  {
    Prompt(Lower(message), Context(message, health))
  }

  /** `chat`: the configuration error when no model is configured, otherwise the
      model's text for the prompt, or the apology when the call fails. */
  function Chat(message: string, health: seq<HealthRow>, configured: bool, generate: string -> Generation): string
    requires LiteralText(message)
  {
    if !configured then ConfigError
    else match generate(ChatPrompt(message, health))
      case Generated(text) => text
      case Failed => Apology
  }

  // ---------------------------------------------------------------------------
  // The pattern: joining the terms and reading the alternation back

  lemma {:induction false} BranchesNoBar(a: string)
    requires '|' !in a
    ensures Branches(a) == [a]
  {
    if a != [] {
      BranchesNoBar(a[1..]);
      assert [a[0]] + a[1..] == a;
    }
  }

  lemma {:induction false} BranchesCons(a: string, b: string)
    requires '|' !in a
    ensures Branches(a + ['|'] + b) == [a] + Branches(b)
  {
    if a == [] {
      assert a + ['|'] + b == ['|'] + b;
      assert (['|'] + b)[1..] == b;
    } else {
      assert (a + ['|'] + b)[1..] == a[1..] + ['|'] + b;
      BranchesCons(a[1..], b);
      assert [a[0]] + a[1..] == a;
    }
  }

  /** Joining terms that hold no '|' and reading the alternation back gives the
      terms again; with no terms the pattern is empty and has one empty branch. */
  lemma {:induction false} BranchesOfPattern(terms: seq<string>)
    requires forall k :: 0 <= k < |terms| ==> '|' !in terms[k]
    ensures Branches(Pattern(terms)) == if terms == [] then [""] else terms
  {
    if |terms| == 1 {
      BranchesNoBar(terms[0]);
    } else if |terms| > 1 {
      BranchesOfPattern(terms[1..]);
      BranchesCons(terms[0], Pattern(terms[1..]));
      assert [terms[0]] + terms[1..] == terms;
    }
  }

  /** For a message without '|', a row matches exactly when its keyword is
      present and, ignoring case, contains one of the message's terms, or when
      the message has no terms at all: the empty pattern matches every keyword. */
  lemma KeywordMatchesTerms(message: string, row: HealthRow)
    requires '|' !in message
    ensures KeywordMatches(Pattern(Terms(message)))(row) <==> Relevant(row, Terms(message))
  {
    var terms := Terms(message);
    forall k | 0 <= k < |terms|
      ensures '|' !in terms[k]
    {
      assert CharsIn(terms[k], Lower(message));
    }
    BranchesOfPattern(terms);
    if terms == [] && row.keyword.Some? {
      var bs := Branches(Pattern(terms));
      SubstringTrivial([], Lower(row.keyword.value));
      assert Lower(bs[0]) == [];
      assert IsSubstring(Lower(bs[0]), Lower(row.keyword.value));
    }
  }

  // ---------------------------------------------------------------------------
  // Retrieval

  /** Context is empty exactly when no row of the table matches (as when the table is empty). */
  lemma ContextEmpty(message: string, health: seq<HealthRow>)
    requires LiteralText(message)
    ensures Context(message, health) == "" <==>
              forall i :: 0 <= i < |health| ==> !KeywordMatches(Pattern(Terms(message)))(health[i])
  {
    var keep := KeywordMatches(Pattern(Terms(message)));
    SelectFirst(health, keep);
    var relevant := Select(health, keep);
    if relevant != [] {
      assert |ContextOf(relevant[0])| > 0;
    }
  }

  /** A row that has a keyword containing, ignoring case, one of the terms of
      the message. */
  predicate Relevant(row: HealthRow, terms: seq<string>) {
    row.keyword.Some?
    && (terms == [] || exists k :: 0 <= k < |terms| && IsSubstring(Lower(terms[k]), Lower(row.keyword.value)))
  }

  /** For a message without '|', context is found exactly when the table has a
      row whose present keyword contains one of the message's terms (any row
      with a present keyword when there are no terms). */
  lemma ContextFoundByTerms(message: string, health: seq<HealthRow>)
    requires LiteralText(message) && '|' !in message
    ensures Context(message, health) != "" <==>
              health != [] && exists i :: 0 <= i < |health| && Relevant(health[i], Terms(message))
  {
    ContextEmpty(message, health);
    forall i | 0 <= i < |health|
      ensures KeywordMatches(Pattern(Terms(message)))(health[i]) <==> Relevant(health[i], Terms(message))
    {
      KeywordMatchesTerms(message, health[i]);
    }
  }

  /** When row `i` is the first matching row, the context is made from row `i` alone. */
  lemma ContextFromFirstMatch(message: string, health: seq<HealthRow>, i: nat)
    requires LiteralText(message)
    requires i < |health| && KeywordMatches(Pattern(Terms(message)))(health[i])
    requires forall j :: 0 <= j < i ==> !KeywordMatches(Pattern(Terms(message)))(health[j])
    ensures Context(message, health) == ContextOf(health[i])
  {
    SelectFirst(health, KeywordMatches(Pattern(Terms(message))));
  }

  /** A message that is all white space has no terms, and the first row whose
      keyword is present supplies the context. */
  lemma ContextWithoutTerms(message: string, health: seq<HealthRow>, i: nat)
    requires LiteralText(message)
    requires forall c :: 0 <= c < |message| ==> IsSpace(message[c])
    requires i < |health| && health[i].keyword.Some?
    requires forall j :: 0 <= j < i ==> health[j].keyword.None?
    ensures Context(message, health) == ContextOf(health[i])
  {
    assert forall c :: 0 <= c < |message| ==> IsSpace(Lower(message)[c]);
    WordsEmpty(Lower(message));
    KeywordMatchesTerms(message, health[i]);
    forall j | 0 <= j < i
      ensures !KeywordMatches(Pattern(Terms(message)))(health[j])
    {
    }
    ContextFromFirstMatch(message, health, i);
  }

  // ---------------------------------------------------------------------------
  // Prompt choice and reply

  /** The prompt opens with "Context: " exactly when there is context, and with
      "User's Question: " exactly when there is none. */
  lemma PromptChoice(question: string, context: string)
    ensures IsPrefix(ContextLead, Prompt(question, context)) <==> context != ""
    ensures IsPrefix(QuestionLead, Prompt(question, context)) <==> context == ""
  {
    var p := Prompt(question, context);
    assert ContextLead[0] == 'C' && QuestionLead[0] == 'U';
    if context != "" {
      assert p[0] == 'C';
    } else {
      assert p[0] == 'U';
    }
  }

  /** With a matching row, the prompt opens with that row's context followed by
      the lowered question. */
  lemma ChatPromptWithContext(message: string, health: seq<HealthRow>, i: nat)
    requires LiteralText(message)
    requires i < |health| && KeywordMatches(Pattern(Terms(message)))(health[i])
    requires forall j :: 0 <= j < i ==> !KeywordMatches(Pattern(Terms(message)))(health[j])
    ensures IsPrefix(ContextLead + ContextOf(health[i]) + "\n\n" + QuestionLead + Lower(message),
                     ChatPrompt(message, health))
  {
    ContextFromFirstMatch(message, health, i);
    assert |ContextOf(health[i])| > 0;
    IsPrefixAppend(ContextLead + ContextOf(health[i]) + "\n\n" + QuestionLead + Lower(message), WithContextTail);
  }

  /** With no matching row, the prompt opens with the lowered question. */
  lemma ChatPromptWithoutContext(message: string, health: seq<HealthRow>)
    requires LiteralText(message)
    requires forall j :: 0 <= j < |health| ==> !KeywordMatches(Pattern(Terms(message)))(health[j])
    ensures IsPrefix(QuestionLead + Lower(message), ChatPrompt(message, health))
    ensures !IsPrefix(ContextLead, ChatPrompt(message, health))
  {
    ContextEmpty(message, health);
    PromptChoice(Lower(message), "");
  }

  /** Without a configured model the reply is the configuration error, for every
      message without regex metacharacters other than '|', every table and every
      generator. */
  lemma ChatWithoutModel(message: string, health: seq<HealthRow>, generate: string -> Generation)
    requires LiteralText(message)
    ensures Chat(message, health, false, generate) == ConfigError
  {
  }
}
