/** The keyword-based instruction parser of `PromptInterface`: a free-text
    prompt becomes a topic, a style, a list of requirement tags and a save flag. */
module Parser {
  import opened Text

  /** An ordered keyword table: each row is a name and the substrings that select it. */
  type Table = seq<(string, seq<string>)>

  /** The instruction words `_extract_topic` drops, compared after lower-casing. */
  const StopWords: seq<string> := [
    "create", "generate", "write", "make", "build", "post", "about",
    "for", "instagram", "content", "caption", "image", "prompt"
  ]

  /** Styles in the order in which they are tried. */
  const StyleTable: Table := [
    ("casual", ["casual", "relaxed", "laid-back", "informal"]),
    ("professional", ["professional", "formal", "business", "corporate"]),
    ("fun", ["fun", "playful", "energetic", "vibrant", "exciting"]),
    ("elegant", ["elegant", "sophisticated", "classy", "refined"]),
    ("educational", ["educational", "informative", "teaching", "learning"])
  ]

  /** The style chosen when no keyword of the style table occurs. */
  const DefaultStyle: string := "conversational"

  /** Requirement tags in the order in which they are reported. */
  const RequirementTable: Table := [
    ("no_emojis", ["no emoji", "without emoji", "no emojis"]),
    ("include_cta", ["call to action", "cta", "include cta"]),
    ("short_format", ["short", "brief", "concise", "quick"]),
    ("long_format", ["detailed", "long", "comprehensive", "in-depth"]),
    ("hashtags", ["hashtag", "tags", "#"]),
    ("story_format", ["story", "narrative", "storytelling"])
  ]

  /** What `_parse_instruction` returns. */
  datatype Instruction = Instruction(topic: string, style: string, requirements: seq<string>, saveFile: bool)

  // ---------------------------------------------------------------- matching

  /** The one matching routine: `any(p in text for p in patterns)`. */
  predicate AnyIn(patterns: seq<string>, text: string) {
    exists p :: p in patterns && IsSubstring(p, text)
  }

  /** No name occurs twice in a table. */
  predicate DistinctNames(table: Table) {
    forall a, b :: 0 <= a < b < |table| ==> table[a].0 != table[b].0
  }

  /** `text` selects row `k` and no earlier row. */
  predicate FirstMatchAt(table: Table, text: string, k: int) {
    0 <= k < |table| && AnyIn(table[k].1, text) &&
    forall j :: 0 <= j < k ==> !AnyIn(table[j].1, text)
  }

  /** The name of the first row whose patterns occur in `text`, or `default`. */
  function FirstMatch(table: Table, text: string, default: string): string {
    if table == [] then default
    else if AnyIn(table[0].1, text) then table[0].0
    else FirstMatch(table[1..], text, default)
  }

  /** The names of all rows whose patterns occur in `text`, in table order. */
  function Selected(table: Table, text: string): (names: seq<string>)
    ensures |names| <= |table|
    ensures forall k :: 0 <= k < |table| && AnyIn(table[k].1, text) ==> table[k].0 in names
    ensures forall x :: x in names ==> exists k :: 0 <= k < |table| && table[k].0 == x && AnyIn(table[k].1, text)
  {
    if table == [] then []
    else
      var last := table[|table| - 1];
      var front := table[..|table| - 1];
      var names := Selected(front, text) + (if AnyIn(last.1, text) then [last.0] else []);
      assert forall k :: 0 <= k < |front| ==> front[k] == table[k];
      names
  }

  /** The first matching row wins. */
  lemma {:induction false} FirstMatchIsFirst(table: Table, text: string, default: string, k: int)
    requires FirstMatchAt(table, text, k)
    ensures FirstMatch(table, text, default) == table[k].0
  {
    if k > 0 {
      assert !AnyIn(table[0].1, text);
      assert FirstMatchAt(table[1..], text, k - 1) by {
        forall j | 0 <= j < k - 1 ensures !AnyIn(table[1..][j].1, text) {
          assert table[1..][j] == table[j + 1];
        }
      }
      FirstMatchIsFirst(table[1..], text, default, k - 1);
    }
  }

  /** With no matching row the default is returned. */
  lemma {:induction false} FirstMatchDefault(table: Table, text: string, default: string)
    requires forall j :: 0 <= j < |table| ==> !AnyIn(table[j].1, text)
    ensures FirstMatch(table, text, default) == default
  {
    if table != [] {
      assert !AnyIn(table[0].1, text);
      forall j | 0 <= j < |table| - 1 ensures !AnyIn(table[1..][j].1, text) {
        assert table[1..][j] == table[j + 1];
      }
      FirstMatchDefault(table[1..], text, default);
    }
  }

  /** Every two names of `names` come, in the same order, from two rows of `table`. */
  predicate InTableOrder(names: seq<string>, table: Table) {
    forall i, j :: 0 <= i < j < |names| ==> FromEarlierRow(names, table, i, j)
  }

  /** Names `i` and `j` come from rows `a < b` of `table`. */
  predicate FromEarlierRow(names: seq<string>, table: Table, i: int, j: int)
    requires 0 <= i < |names| && 0 <= j < |names|
  {
    exists a, b :: 0 <= a < b < |table| && table[a].0 == names[i] && table[b].0 == names[j]
  }

  /** Selected names keep the table's order: an earlier name comes from an earlier row. */
  lemma {:induction false} SelectedInTableOrder(table: Table, text: string)
    ensures InTableOrder(Selected(table, text), table)
  {
    if table != [] {
      var front := table[..|table| - 1];
      var last := table[|table| - 1];
      var pre := Selected(front, text);
      var names := Selected(table, text);
      SelectedInTableOrder(front, text);
      assert names == pre + (if AnyIn(last.1, text) then [last.0] else []);
      forall i, j | 0 <= i < j < |names|
        ensures FromEarlierRow(names, table, i, j)
      {
        assert names[i] == pre[i];
        if j < |pre| {
          assert names[j] == pre[j];
          assert FromEarlierRow(pre, front, i, j);
          var a, b :| 0 <= a < b < |front| && front[a].0 == pre[i] && front[b].0 == pre[j];
          assert table[a] == front[a] && table[b] == front[b];
        } else {
          assert pre[i] in pre;
          var a :| 0 <= a < |front| && front[a].0 == pre[i] && AnyIn(front[a].1, text);
          assert table[a] == front[a];
          assert names[j] == last.0 == table[|table| - 1].0;
        }
      }
      assert InTableOrder(names, table);
    }
  }

  /** With distinct names, the selection has no duplicates and contains exactly the matching names. */
  lemma SelectedExactly(table: Table, text: string)
    requires DistinctNames(table)
    ensures var names := Selected(table, text);
      (forall i, j :: 0 <= i < j < |names| ==> names[i] != names[j]) &&
      (forall k :: 0 <= k < |table| ==> (table[k].0 in names <==> AnyIn(table[k].1, text)))
  {
    var names := Selected(table, text);
    SelectedInTableOrder(table, text);
    forall i, j | 0 <= i < j < |names| ensures names[i] != names[j] {
      assert FromEarlierRow(names, table, i, j);
      var a, b :| 0 <= a < b < |table| && table[a].0 == names[i] && table[b].0 == names[j];
    }
  }

  // ------------------------------------------------------------------ topic

  /** A token `_extract_topic` drops. */
  predicate IsStopWord(w: string) {
    Lower(w) in StopWords
  }

  /** The tokens the loop of `_extract_topic` keeps, in their original order and case. */
  function TopicWords(words: seq<string>): (kept: seq<string>)
    ensures |kept| <= |words|
    ensures forall w :: w in kept <==> w in words && !IsStopWord(w)
  {
    if words == [] then []
    else
      var w := words[|words| - 1];
      var front := words[..|words| - 1];
      assert words == front + [w];
      TopicWords(front) + (if IsStopWord(w) then [] else [w])
  }

  /** The filter works word by word: filtering a concatenation filters each part. */
  lemma {:induction false} TopicWordsAppend(a: seq<string>, b: seq<string>)
    ensures TopicWords(a + b) == TopicWords(a) + TopicWords(b)
    decreases |b|
  {
    if b == [] {
      assert a + b == a;
    } else {
      var front := b[..|b| - 1];
      var x := b[|b| - 1];
      assert (a + b)[..|a + b| - 1] == a + front;
      assert (a + b)[|a + b| - 1] == x;
      assert b[..|b| - 1] == front;
      TopicWordsAppend(a, front);
    }
  }

  /** One word is kept, unchanged, exactly when it is not a stop-word. */
  lemma TopicWordsOne(w: string)
    ensures TopicWords([w]) == if IsStopWord(w) then [] else [w]
  {
    assert [w][..0] == [];
  }

  /** `_extract_topic`: the kept tokens joined by single spaces, or the whole prompt when none is kept. */
  function Topic(prompt: string): string {
    var kept := TopicWords(Split(prompt));
    if kept == [] then prompt else Join(kept)
  }

  /** `_extract_style` on the lower-cased prompt. */
  function Style(promptLower: string): string {
    FirstMatch(StyleTable, promptLower, DefaultStyle)
  }

  /** `_extract_requirements` on the lower-cased prompt. */
  function Requirements(promptLower: string): seq<string> {
    Selected(RequirementTable, promptLower)
  }

  /** The `save_file` entry: no "no save" and no "don't save" in the lower-cased prompt. */
  predicate SaveFile(promptLower: string) {
    !IsSubstring("no save", promptLower) && !IsSubstring("don't save", promptLower)
  }

  /** Keeping tokens that are no stop-words changes nothing. */
  lemma {:induction false} TopicWordsFixpoint(words: seq<string>)
    requires forall w :: w in words ==> !IsStopWord(w)
    ensures TopicWords(words) == words
  {
    if words != [] {
      var front := words[..|words| - 1];
      assert words == front + [words[|words| - 1]];
      TopicWordsFixpoint(front);
    }
  }

  /** When some token survives, the topic's own tokens are exactly the surviving tokens, none a stop-word. */
  lemma TopicTokens(prompt: string)
    ensures TopicWords(Split(prompt)) != [] ==> Split(Topic(prompt)) == TopicWords(Split(prompt))
    ensures TopicWords(Split(prompt)) != [] ==> forall w :: w in Split(Topic(prompt)) ==> !IsStopWord(w)
  {
    SplitJoin(TopicWords(Split(prompt)));
  }

  /** The topic is empty exactly when the prompt is: the fallback never manufactures an empty topic. */
  lemma TopicEmptyIff(prompt: string)
    ensures Topic(prompt) == "" <==> prompt == ""
  {
    var kept := TopicWords(Split(prompt));
    if kept != [] {
      JoinNonEmpty(kept);
    }
  }

  /** When every token is a stop-word, or there is no token, the topic is the prompt itself. */
  lemma TopicFallback(prompt: string)
    ensures (forall w :: w in Split(prompt) ==> IsStopWord(w)) ==> Topic(prompt) == prompt
  {
    var kept := TopicWords(Split(prompt));
    if kept != [] {
      assert kept[0] in kept;
    }
  }

  /** Extracting the topic of a topic returns it unchanged. */
  lemma TopicIdempotent(prompt: string)
    ensures Topic(Topic(prompt)) == Topic(prompt)
  {
    var kept := TopicWords(Split(prompt));
    if kept != [] {
      TopicTokens(prompt);
      TopicWordsFixpoint(kept);
    }
  }

  /** The five style names and the default are pairwise distinct. */
  lemma StyleTableNames()
    ensures DistinctNames(StyleTable)
    ensures forall k :: 0 <= k < |StyleTable| ==> StyleTable[k].0 != DefaultStyle
  {
  }

  /** The six requirement tags are pairwise distinct. */
  lemma RequirementTableNames()
    ensures DistinctNames(RequirementTable)
  {
  }

  /** Style precedence: a style is returned exactly when its keywords occur and no earlier style's do;
      the default is returned exactly when no style's keywords occur. */
  lemma StylePrecedence(promptLower: string)
    ensures forall k :: 0 <= k < |StyleTable| ==>
      (Style(promptLower) == StyleTable[k].0 <==> FirstMatchAt(StyleTable, promptLower, k))
    ensures Style(promptLower) == DefaultStyle <==>
      forall j :: 0 <= j < |StyleTable| ==> !AnyIn(StyleTable[j].1, promptLower)
  {
    StyleTableNames();
    if k :| FirstMatchAt(StyleTable, promptLower, k) {
      FirstMatchIsFirst(StyleTable, promptLower, DefaultStyle, k);
      forall k' | 0 <= k' < |StyleTable| && k' != k ensures !FirstMatchAt(StyleTable, promptLower, k') { }
    } else {
      forall j | 0 <= j < |StyleTable| ensures !AnyIn(StyleTable[j].1, promptLower) {
        NoFirstMatch(StyleTable, promptLower, j);
      }
      FirstMatchDefault(StyleTable, promptLower, DefaultStyle);
    }
  }

  /** If no row is the first match, no row matches at all. */
  lemma {:induction false} NoFirstMatch(table: Table, text: string, j: int)
    requires 0 <= j < |table|
    requires forall k :: !FirstMatchAt(table, text, k)
    ensures !AnyIn(table[j].1, text)
  {
    if j > 0 {
      NoFirstMatch(table, text, j - 1);
      forall i | 0 <= i < j ensures !AnyIn(table[i].1, text) {
        if i < j - 1 { NoFirstMatch(table, text, i); }
      }
      assert !FirstMatchAt(table, text, j);
    } else {
      assert !FirstMatchAt(table, text, 0);
    }
  }

  /** Requirements: a tag is reported exactly when one of its patterns occurs; in declared order,
      without duplicates, at most six. */
  lemma RequirementsCharacterised(promptLower: string)
    ensures var r := Requirements(promptLower);
      |r| <= 6 &&
      (forall k :: 0 <= k < |RequirementTable| ==> (RequirementTable[k].0 in r <==> AnyIn(RequirementTable[k].1, promptLower))) &&
      (forall x :: x in r ==> exists k :: 0 <= k < |RequirementTable| && RequirementTable[k].0 == x) &&
      (forall i, j :: 0 <= i < j < |r| ==> r[i] != r[j]) &&
      InTableOrder(r, RequirementTable)
  {
    RequirementTableNames();
    SelectedExactly(RequirementTable, promptLower);
    SelectedInTableOrder(RequirementTable, promptLower);
  }

  // ------------------------------------------------------------- the loops

  /** `_extract_topic`, with its loop over the split prompt. */
  method ExtractTopic(prompt: string) returns (topic: string)
    ensures topic == Topic(prompt)
    ensures (forall w :: w in Split(prompt) ==> IsStopWord(w)) ==> topic == prompt
  {
    var words := Split(prompt);
    var topicWords: seq<string> := [];
    for i := 0 to |words|
      invariant topicWords == TopicWords(words[..i])
    {
      assert words[..i + 1] == words[..i] + [words[i]];
      if Lower(words[i]) !in StopWords {
        topicWords := topicWords + [words[i]];
      }
    }
    assert words[..|words|] == words;
    if topicWords == [] {
      return prompt;
    }
    assert topicWords[0] in topicWords;
    return Join(topicWords);
  }

  /** `_extract_style`, with its early return from the loop over the style table. */
  method ExtractStyle(promptLower: string) returns (style: string)
    ensures style == Style(promptLower)
    ensures forall k :: 0 <= k < |StyleTable| ==>
      (style == StyleTable[k].0 <==> FirstMatchAt(StyleTable, promptLower, k))
    ensures style == DefaultStyle <==>
      forall j :: 0 <= j < |StyleTable| ==> !AnyIn(StyleTable[j].1, promptLower)
  {
    StylePrecedence(promptLower);
    for i := 0 to |StyleTable|
      invariant forall j :: 0 <= j < i ==> !AnyIn(StyleTable[j].1, promptLower)
    {
      if AnyIn(StyleTable[i].1, promptLower) {
        FirstMatchIsFirst(StyleTable, promptLower, DefaultStyle, i);
        return StyleTable[i].0;
      }
    }
    FirstMatchDefault(StyleTable, promptLower, DefaultStyle);
    return DefaultStyle;
  }

  /** `_extract_requirements`, with its loop appending every matching tag. */
  method ExtractRequirements(promptLower: string) returns (requirements: seq<string>)
    ensures requirements == Requirements(promptLower)
    ensures forall k :: 0 <= k < |RequirementTable| ==>
      (RequirementTable[k].0 in requirements <==> AnyIn(RequirementTable[k].1, promptLower))
    ensures forall i, j :: 0 <= i < j < |requirements| ==> requirements[i] != requirements[j]
  {
    RequirementsCharacterised(promptLower);
    requirements := [];
    for i := 0 to |RequirementTable|
      invariant requirements == Selected(RequirementTable[..i], promptLower)
    {
      assert RequirementTable[..i + 1][..i] == RequirementTable[..i];
      if AnyIn(RequirementTable[i].1, promptLower) {
        requirements := requirements + [RequirementTable[i].0];
      }
    }
    assert RequirementTable[..|RequirementTable|] == RequirementTable;
  }

  // ------------------------------------------------------------- composition

  /** `_parse_instruction`. */
  function ParseInstruction(prompt: string): (r: Instruction)
    ensures r.topic == "" <==> prompt == ""
    ensures r.topic == prompt || forall w :: w in Split(r.topic) ==> !IsStopWord(w)
    ensures |r.requirements| <= |RequirementTable|
  {
    var promptLower := Lower(prompt);
    TopicEmptyIff(prompt);
    TopicTokens(prompt);
    Instruction(Topic(prompt), Style(promptLower), Requirements(promptLower), SaveFile(promptLower))
  }

  /** Style, requirements and save flag see only the lower-cased prompt: prompts that differ only in
      letter case agree on them. */
  lemma ParseIgnoresCase(p: string, q: string)
    requires |p| == |q|
    requires forall i :: 0 <= i < |p| ==> LowerChar(p[i]) == LowerChar(q[i])
    ensures ParseInstruction(p).style == ParseInstruction(q).style
    ensures ParseInstruction(p).requirements == ParseInstruction(q).requirements
    ensures ParseInstruction(p).saveFile == ParseInstruction(q).saveFile
  {
    assert Lower(p) == Lower(q);
  }

  /** The save flag is cleared exactly when "no save" or "don't save" appears in the prompt in any letter case. */
  lemma SaveFlagIffPhrase(prompt: string)
    ensures !ParseInstruction(prompt).saveFile <==>
      ContainsIgnoringCase("no save", prompt) || ContainsIgnoringCase("don't save", prompt)
  {
    LowerSubstring("no save", prompt);
    LowerSubstring("don't save", prompt);
  }
}
