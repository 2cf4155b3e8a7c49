/** Submitted text as a command: the three parsers, the escape, and the aliases they read back. */
module Commands {
  import opened Pastes
  import opened Whitespace
  import Seqs

  datatype CommandAction =
    | OpenModelSelect | AddProvider | AddDecisionProvider | Attach | ManageAttachments
    | OpenSessionPicker | OpenTree | OpenTodos | Images | OpenScenePicker | OpenVariantPicker
    | OpenThemePicker | PeakTable | OpenCodemode | NewSession | NewTab | CloseTab | EditTitle
    | GenTitle | Export | UndoLastTurn | Replay | Compact | Reload | McpServers | McpReconnect
    | ToggleSidebar | Search | AssistedBy | Screensaver | Quit

  const ALL: seq<CommandAction> := [
    OpenModelSelect, AddProvider, AddDecisionProvider, Attach, ManageAttachments,
    OpenSessionPicker, OpenTree, OpenTodos, Images, OpenScenePicker, OpenVariantPicker,
    OpenThemePicker, PeakTable, OpenCodemode, NewSession, NewTab, CloseTab, EditTitle,
    GenTitle, Export, UndoLastTurn, Replay, Compact, Reload, McpServers, McpReconnect,
    ToggleSidebar, Search, AssistedBy, Screensaver, Quit
  ]

  function SlashName(action: CommandAction): string {
    match action
    case OpenModelSelect => "model"
    case AddProvider => "provider"
    case AddDecisionProvider => "decision-provider"
    case Attach => "attach"
    case ManageAttachments => "manage-attachments"
    case OpenSessionPicker => "sessions"
    case OpenTree => "tree"
    case OpenTodos => "todo"
    case Images => "images"
    case OpenScenePicker => "scene"
    case OpenVariantPicker => "variant"
    case OpenThemePicker => "theme"
    case PeakTable => "peak-table"
    case OpenCodemode => "codemode"
    case NewSession => "new"
    case NewTab => "newtab"
    case CloseTab => "closetab"
    case EditTitle => "title"
    case GenTitle => "gen-title"
    case Export => "export"
    case UndoLastTurn => "undo"
    case Replay => "replay"
    case Compact => "compact"
    case Reload => "reload"
    case McpServers => "mcp"
    case McpReconnect => "mcp-reconnect"
    case ToggleSidebar => "sidebar"
    case Search => "search"
    case AssistedBy => "assisted-by"
    case Screensaver => "screensaver"
    case Quit => "quit"
  }

  predicate TakesArgs(action: CommandAction) {
    || action.Attach? || action.Compact? || action.EditTitle? || action.Export? || action.NewTab?
    || action.McpReconnect? || action.OpenScenePicker? || action.OpenVariantPicker?
    || action.OpenThemePicker? || action.Search?
  }

  // Triggers and words ---------------------------------------------------------------------------

  predicate Trigger(c: char) {
    c == '/' || c == ':'
  }

  predicate IsEscaped(text: string) {
    |text| >= 2 && Trigger(text[0]) && text[0] == text[1]
  }

  function Unescape(text: string): string {
    if IsEscaped(text) then text[1..] else text
  }

  /** What follows the trigger character, if the trimmed text opens with one. */
  function Opened(text: string): Option<string> {
    var text := Trim(text);
    if text != "" && Trigger(text[0]) && !IsEscaped(text) then Some(text[1..]) else None
  }

  predicate OpensWithTrigger(text: string) {
    Opened(text).Some?
  }

  predicate NoSpace(s: string) {
    forall c :: c in s ==> !IsWhitespace(c)
  }

  function WordLength(s: string): (n: nat)
    ensures n <= |s|
  {
    if s == "" || IsWhitespace(s[0]) then 0 else 1 + WordLength(s[1..])
  }

  function Word(s: string): string {
    s[..WordLength(s)]
  }

  /** The trimmed remainder after the first word, when there is one. */
  function Args(s: string): Option<string> {
    Given(Trim(s[WordLength(s)..]))
  }

  function Given(args: string): Option<string> {
    if args == "" then None else Some(args)
  }

  function LowerChar(c: char): char {
    if 'A' <= c <= 'Z' then (c as int + 32) as char else c
  }

  predicate EqIgnoreCase(a: string, b: string) {
    |a| == |b| && forall i :: 0 <= i < |a| ==> LowerChar(a[i]) == LowerChar(b[i])
  }

  // The parsers -----------------------------------------------------------------------------------

  datatype Command = Command(action: CommandAction, args: Option<string>)
  datatype Skill = Skill(name: string, args: Option<string>)
  datatype Custom = Custom(name: string, args: Option<string>)

  /** The first action from `i` on whose name is the alias, whatever the case. */
  function Find(alias: string, i: nat): Option<CommandAction>
    requires i <= |ALL|
    decreases |ALL| - i
  {
    if i == |ALL| then None
    else if EqIgnoreCase(SlashName(ALL[i]), alias) then Some(ALL[i])
    else Find(alias, i + 1)
  }

  function ParseCommand(text: string): Option<Command> {
    match Opened(text)
    case None => None
    case Some(rest) =>
      var alias, args := Word(rest), Args(rest);
      if alias == "" then None
      else
        match Find(alias, 0)
        case None => None
        case Some(action) =>
          if args.Some? && !TakesArgs(action) then None else Some(Command(action, args))
  }

  function ParseSkill(text: string): Option<Skill> {
    match Opened(text)
    case None => None
    case Some(rest) =>
      if !("skill:" <= rest) then None
      else
        var name := Word(rest[6..]);
        if name == "" then None else Some(Skill(name, Args(rest[6..])))
  }

  predicate NameChar(c: char) {
    'a' <= c <= 'z' || '0' <= c <= '9' || c == '-'
  }

  predicate IsCommandName(name: string) {
    name != "" && forall i :: 0 <= i < |name| ==> NameChar(name[i])
  }

  predicate BuiltinName(name: string) {
    exists i :: 0 <= i < |ALL| && SlashName(ALL[i]) == name
  }

  function ParseCustom(text: string): Option<Custom> {
    match Opened(text)
    case None => None
    case Some(rest) =>
      var prefixed := "custom:" <= rest;
      var rest := if prefixed then rest[7..] else rest;
      var name := Word(rest);
      if !IsCommandName(name) then None
      else if !prefixed && BuiltinName(name) then None
      else Some(Custom(name, Args(rest)))
  }

  /** `slash_alias` of a custom command. */
  function CustomAlias(name: string): string {
    if BuiltinName(name) then "custom:" + name else name
  }

  // Names -----------------------------------------------------------------------------------------

  /** Length, first and third character: enough to tell the names apart. */
  function Key(name: string): (int, char, char) {
    if |name| < 3 then (0, ' ', ' ') else (|name|, LowerChar(name[0]), LowerChar(name[2]))
  }

  lemma NamesDiffer(a: CommandAction, b: CommandAction)
    requires Key(SlashName(a)) == Key(SlashName(b))
    ensures a == b
  {
    NamesAreNames(a);
    NamesAreNames(b);
    if |SlashName(a)| <= 6 {
      ShortNamesDiffer(a, b);
    } else {
      LongNamesDiffer(a, b);
    }
  }

  lemma ShortNamesDiffer(a: CommandAction, b: CommandAction)
    requires 3 <= |SlashName(a)| == |SlashName(b)| <= 6 && Key(SlashName(a)) == Key(SlashName(b))
    ensures a == b
  {}

  lemma LongNamesDiffer(a: CommandAction, b: CommandAction)
    requires 6 < |SlashName(a)| == |SlashName(b)| && Key(SlashName(a)) == Key(SlashName(b))
    ensures a == b
  {}

  lemma NamesAreNames(action: CommandAction)
    ensures IsCommandName(SlashName(action)) && |SlashName(action)| >= 3
  {
    if |SlashName(action)| <= 4 {
      ShortestName(action);
    } else if |SlashName(action)| <= 6 {
      ShortName(action);
    } else if |SlashName(action)| <= 9 {
      MiddleName(action);
    } else if |SlashName(action)| <= 12 {
      LongName(action);
    } else {
      LongestName(action);
    }
  }

  lemma ShortestName(action: CommandAction)
    requires |SlashName(action)| <= 4
    ensures IsCommandName(SlashName(action)) && |SlashName(action)| >= 3
  {}

  lemma ShortName(action: CommandAction)
    requires 4 < |SlashName(action)| <= 6
    ensures IsCommandName(SlashName(action))
  {}

  lemma MiddleName(action: CommandAction)
    requires 6 < |SlashName(action)| <= 9
    ensures IsCommandName(SlashName(action))
  {}

  lemma LongName(action: CommandAction)
    requires 9 < |SlashName(action)| <= 12
    ensures IsCommandName(SlashName(action))
  {}

  lemma LongestName(action: CommandAction)
    requires |SlashName(action)| > 12
    ensures IsCommandName(SlashName(action))
  {}

  lemma AllListed(action: CommandAction) returns (i: nat)
    ensures i < |ALL| && ALL[i] == action
  {
    match action
    case OpenModelSelect => i := 0;
    case AddProvider => i := 1;
    case AddDecisionProvider => i := 2;
    case Attach => i := 3;
    case ManageAttachments => i := 4;
    case OpenSessionPicker => i := 5;
    case OpenTree => i := 6;
    case OpenTodos => i := 7;
    case Images => i := 8;
    case OpenScenePicker => i := 9;
    case OpenVariantPicker => i := 10;
    case OpenThemePicker => i := 11;
    case PeakTable => i := 12;
    case OpenCodemode => i := 13;
    case NewSession => i := 14;
    case NewTab => i := 15;
    case CloseTab => i := 16;
    case EditTitle => i := 17;
    case GenTitle => i := 18;
    case Export => i := 19;
    case UndoLastTurn => i := 20;
    case Replay => i := 21;
    case Compact => i := 22;
    case Reload => i := 23;
    case McpServers => i := 24;
    case McpReconnect => i := 25;
    case ToggleSidebar => i := 26;
    case Search => i := 27;
    case AssistedBy => i := 28;
    case Screensaver => i := 29;
    case Quit => i := 30;
  }

  lemma SameCaseSameKey(name: string, alias: string)
    requires EqIgnoreCase(name, alias)
    ensures Key(name) == Key(alias)
  {}

  lemma FirstFound(alias: string, i: nat)
    requires i <= |ALL|
    ensures Find(alias, i).Some? ==> EqIgnoreCase(SlashName(Find(alias, i).value), alias)
    ensures Find(alias, i).None? ==> forall k :: i <= k < |ALL| ==> !EqIgnoreCase(SlashName(ALL[k]), alias)
    decreases |ALL| - i
  {
    if i < |ALL| && !EqIgnoreCase(SlashName(ALL[i]), alias) {
      FirstFound(alias, i + 1);
    }
  }

  /** The first action found is the only one with that name. */
  lemma FindIff(alias: string, action: CommandAction)
    ensures Find(alias, 0) == Some(action) <==> EqIgnoreCase(SlashName(action), alias)
  {
    FirstFound(alias, 0);
    if EqIgnoreCase(SlashName(action), alias) {
      var i := AllListed(action);
      assert Find(alias, 0).Some?;
      SameCaseSameKey(SlashName(action), alias);
      SameCaseSameKey(SlashName(Find(alias, 0).value), alias);
      NamesDiffer(Find(alias, 0).value, action);
    }
  }

  /** A custom command's name in a builtin's place is that builtin's name exactly. */
  lemma LowerNameIsName(action: CommandAction, name: string)
    requires IsCommandName(name) && EqIgnoreCase(SlashName(action), name)
    ensures BuiltinName(name)
  {
    var i := AllListed(action);
    NamesAreNames(action);
    SameLowerName(SlashName(action), name);
  }

  lemma SameLowerName(a: string, b: string)
    requires IsCommandName(a) && IsCommandName(b) && EqIgnoreCase(a, b)
    ensures a == b
  {
    forall k | 0 <= k < |a| ensures a[k] == b[k] {
      assert a[k] in a && b[k] in b;
    }
  }

  // Words of a submission ---------------------------------------------------------------------------

  lemma {:induction false} WordEnds(word: string, rest: string)
    requires NoSpace(word) && (rest != "" ==> IsWhitespace(rest[0]))
    ensures Word(word + rest) == word && (word + rest)[WordLength(word + rest)..] == rest
  {
    if word == "" {
      assert word + rest == rest;
    } else {
      assert (word + rest)[1..] == word[1..] + rest;
      WordEnds(word[1..], rest);
    }
  }

  lemma {:induction false} WordHasNoSpace(s: string)
    ensures NoSpace(Word(s))
  {
    if s != "" && !IsWhitespace(s[0]) {
      WordHasNoSpace(s[1..]);
      assert Word(s) == [s[0]] + Word(s[1..]);
    }
  }

  /** One word, and arguments behind a gap of white space if there are any. */
  predicate Spoken(word: string, gap: string, args: string) {
    && NoSpace(word) && AllSpace(gap) && Trimmed(args)
    && if args == "" then gap == "" else gap != ""
  }

  lemma SpokenWord(word: string, gap: string, args: string)
    requires Spoken(word, gap, args)
    ensures Word(word + (gap + args)) == word && Args(word + (gap + args)) == Given(args)
  {
    WordEnds(word, gap + args);
    if args != "" {
      TrimAround(gap, args, "");
      assert gap + args + "" == gap + args;
    }
  }

  /** The text `word args` behind a trigger, with white space around and between. */
  function Line(lead: string, t: char, word: string, gap: string, args: string, trail: string): string {
    lead + ([t] + (word + (gap + args))) + trail
  }

  lemma LineOpens(lead: string, t: char, word: string, gap: string, args: string, trail: string)
    requires AllSpace(lead) && AllSpace(trail) && Trigger(t)
    requires Spoken(word, gap, args) && word != "" && word[0] != t
    ensures Opened(Line(lead, t, word, gap, args, trail)) == Some(word + (gap + args))
  {
    var body := word + (gap + args);
    var x := [t] + body;
    assert body[0] == word[0];
    assert x[|x| - 1] == if args == "" then word[|word| - 1] else args[|args| - 1];
    TrimAround(lead, x, trail);
    assert x[1..] == body;
  }

  /** Words, a gap and arguments laid out as a submission may have them. */
  predicate Layout(lead: string, gap: string, args: string, trail: string) {
    AllSpace(lead) && AllSpace(trail) && Spoken("", gap, args)
  }

  /** A text is read as a command exactly when, white space aside, it opens with a slash or a colon
      that is not doubled; what follows is read. */
  lemma OpensIff(lead: string, t: char, rest: string, trail: string)
    requires AllSpace(lead) && AllSpace(trail) && Trimmed([t] + rest)
    ensures Opened(lead + ([t] + rest) + trail)
         == if (t == '/' || t == ':') && !(rest != [] && rest[0] == t) then Some(rest) else None
  {
    TrimAround(lead, [t] + rest, trail);
    assert ([t] + rest)[1..] == rest;
  }

  // What the parsers read ----------------------------------------------------------------------------

  lemma ParsedName(text: string)
    ensures ParseCustom(text).Some? ==> IsCommandName(ParseCustom(text).value.name)
    ensures ParseSkill(text).Some? ==> ParseSkill(text).value.name != "" && NoSpace(ParseSkill(text).value.name)
  {
    if Opened(text).Some? && "skill:" <= Opened(text).value {
      WordHasNoSpace(Opened(text).value[6..]);
    }
  }

  lemma NameShape(name: string)
    requires IsCommandName(name)
    ensures NoSpace(name) && ':' !in name && !Trigger(name[0])
  {
    assert name[0] in name;
  }

  lemma TakePrefixed(prefix: string, name: string, tail: string)
    ensures prefix <= prefix + name + tail && (prefix + name + tail)[|prefix|..] == name + tail
  {
    assert prefix + name + tail == prefix + (name + tail);
  }

  /** The alias of a custom command reads back as that command with its arguments, behind
      either trigger and however the white space lies, exactly when its name is one a
      command may have. */
  lemma CustomReads(lead: string, t: char, name: string, gap: string, args: string, trail: string)
    requires Layout(lead, gap, args, trail) && Trigger(t)
    ensures ParseCustom(Line(lead, t, CustomAlias(name), gap, args, trail)) == Some(Custom(name, Given(args)))
       <==> IsCommandName(name)
  {
    var alias := CustomAlias(name);
    if IsCommandName(name) {
      NameShape(name);
      assert alias[0] == 'c' || alias[0] == name[0];
      LineOpens(lead, t, alias, gap, args, trail);
      SpokenWord(name, gap, args);
      if BuiltinName(name) {
        TakePrefixed("custom:", name, gap + args);
      } else {
        NoPrefix("custom:", 6, name, gap + args);
      }
    } else {
      ParsedName(Line(lead, t, alias, gap, args, trail));
    }
  }

  /** A word without a colon does not start a prefix that ends in one. */
  lemma NoPrefix(prefix: string, k: nat, word: string, tail: string)
    requires |prefix| == k + 1 && prefix[k] == ':' && NoSpace(prefix) && ':' !in word
    requires tail != "" ==> IsWhitespace(tail[0])
    ensures !(prefix <= word + tail)
  {
    if k < |word| {
      assert (word + tail)[k] == word[k] && word[k] in word;
    } else if tail != "" {
      assert (word + tail)[|word|] == tail[0] && prefix[|word|] in prefix;
    }
  }

  /** A builtin's name in any case reads back as its action, unless arguments follow that
      the action does not take; then nothing is read. */
  lemma BuiltinReads(lead: string, t: char, action: CommandAction, alias: string, gap: string, args: string,
                     trail: string)
    requires Layout(lead, gap, args, trail) && Trigger(t) && EqIgnoreCase(SlashName(action), alias)
    ensures ParseCommand(Line(lead, t, alias, gap, args, trail))
         == if args == "" || TakesArgs(action) then Some(Command(action, Given(args))) else None
  {
    AliasShape(action, alias);
    LineOpens(lead, t, alias, gap, args, trail);
    SpokenWord(alias, gap, args);
    FindIff(alias, action);
  }

  lemma AliasShape(action: CommandAction, alias: string)
    requires EqIgnoreCase(SlashName(action), alias)
    ensures alias != "" && NoSpace(alias) && ':' !in alias && !Trigger(alias[0])
  {
    var name := SlashName(action);
    NamesAreNames(action);
    forall i | 0 <= i < |alias| ensures !IsWhitespace(alias[i]) && !Trigger(alias[i]) {
      assert name[i] in name && LowerChar(alias[i]) == LowerChar(name[i]) == name[i];
    }
  }

  /** A skill's name reads back exactly when it is one word. */
  lemma SkillReads(lead: string, t: char, name: string, gap: string, args: string, trail: string)
    requires Layout(lead, gap, args, trail) && Trigger(t)
    ensures ParseSkill(Line(lead, t, "skill:" + name, gap, args, trail)) == Some(Skill(name, Given(args)))
       <==> name != "" && NoSpace(name)
  {
    var word := "skill:" + name;
    if name != "" && NoSpace(name) {
      assert word[0] == 's';
      LineOpens(lead, t, word, gap, args, trail);
      SpokenWord(name, gap, args);
      TakePrefixed("skill:", name, gap + args);
    } else {
      ParsedName(Line(lead, t, word, gap, args, trail));
    }
  }

  /** What starts with a prefix that ends in a colon is a word with a colon. */
  lemma {:induction false} PrefixInWord(prefix: string, rest: string)
    requires NoSpace(prefix) && prefix <= rest
    ensures prefix <= Word(rest)
  {
    if prefix != "" {
      assert prefix[0] == rest[0] && prefix[0] in prefix;
      PrefixInWord(prefix[1..], rest[1..]);
    }
  }

  /** No text is read by two of the parsers. */
  lemma ParsersDisjoint(text: string)
    ensures !(ParseCommand(text).Some? && ParseCustom(text).Some?)
    ensures !(ParseCommand(text).Some? && ParseSkill(text).Some?)
    ensures !(ParseCustom(text).Some? && ParseSkill(text).Some?)
  {
    if Opened(text).Some? {
      var rest := Opened(text).value;
      if "skill:" <= rest {
        ColonInWord("skill:", rest);
      }
      if "custom:" <= rest {
        ColonInWord("custom:", rest);
      }
      if Find(Word(rest), 0).Some? {
        FoundWord(Word(rest));
      }
    }
  }

  lemma ColonInWord(prefix: string, rest: string)
    requires prefix != "" && prefix[|prefix| - 1] == ':' && NoSpace(prefix) && prefix <= rest
    ensures ':' in Word(rest) && !IsCommandName(Word(rest))
  {
    PrefixInWord(prefix, rest);
    assert Word(rest)[|prefix| - 1] == ':';
  }

  lemma FoundWord(alias: string)
    requires Find(alias, 0).Some?
    ensures ':' !in alias && (IsCommandName(alias) ==> BuiltinName(alias))
  {
    var action := Find(alias, 0).value;
    FindIff(alias, action);
    AliasShape(action, alias);
    if IsCommandName(alias) {
      LowerNameIsName(action, alias);
    }
  }

  // The escape -------------------------------------------------------------------------------------------

  /** Doubling the trigger sends any text that starts with one as it is: nothing reads the
      doubled form, and unescaping takes the extra character off again. */
  lemma LiteralReads(text: string)
    requires text != "" && Trigger(text[0])
    ensures var doubled := [text[0]] + text;
      && Unescape(doubled) == text && !OpensWithTrigger(doubled)
      && ParseCommand(doubled).None? && ParseCustom(doubled).None? && ParseSkill(doubled).None?
  {
    var doubled := [text[0]] + text;
    TrimEndLeaves(doubled, 2);
    assert doubled[1..] == text;
  }

  /** White space in front hides the doubled trigger from `unescape`, not from the parsers:
      the escape is then sent along. */
  lemma EscapeAtFrontIff(text: string)
    requires IsEscaped(Trim(text))
    ensures Unescape(text) != text <==> !IsWhitespace(text[0])
  {
    TrimStartKeepsEnd(text);
    TrimEndKeepsStart(TrimStart(text));
  }
}
