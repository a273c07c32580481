/** The per-user preferences behind `/rm`, `/setcc`, `/setid` and `/settings`:
    the parsing of the command arguments, the ordered rule table, the
    summary the settings menu shows, and the inline-keyboard actions that
    clear a preference. The document store is a map from user id to the
    fields a user's document holds. */
module Settings {
  import opened Wrappers
  import opened Text
  import opened Sanitize
  import opened Files
  import opened Captions

  // ---------------------------------------------------------------------------
  // Command arguments

  /** The text after the first run of non-white-space characters. */
  function SkipWord(s: string): (r: string)
    ensures |r| <= |s| && r == s[|s| - |r|..]
    ensures r == [] || IsSpace(r[0])
    decreases |s|
  {
    if s == [] || IsSpace(s[0]) then s else SkipWord(s[1..])
  }

  /** `text.split(None, 1)[1]` when the split yields two pieces (`None` when
      it yields fewer): the text after the command word and the white space
      that follows it. */
  function CommandArgument(text: string): (r: Option<string>)
    ensures r.Some? ==> r.value != [] && !IsSpace(r.value[0])
  {
    var rest := LStrip(SkipWord(LStrip(text)));
    if rest == [] then None else Some(rest)
  }

  lemma {:induction false} SkipWordOver(w: string, t: string)
    requires forall k :: 0 <= k < |w| ==> !IsSpace(w[k])
    requires t == [] || IsSpace(t[0])
    ensures SkipWord(w + t) == t
    decreases |w|
  {
    if w != [] {
      assert (w + t)[0] == w[0] && (w + t)[1..] == w[1..] + t;
      SkipWordOver(w[1..], t);
    } else {
      assert w + t == t;
    }
  }

  /** A command word, a blank and an argument: the argument is found without
      its leading white space, and an argument of white space only is no
      argument (the help text is sent instead). */
  lemma ArgumentAfterCommand(command: string, arg: string)
    requires command != [] && forall k :: 0 <= k < |command| ==> !IsSpace(command[k])
    ensures CommandArgument(command + " " + arg) ==
      if LStrip(arg) == [] then None else Some(LStrip(arg))
  {
    CommandWordSkipped(command, arg);
    LStripBlank(arg);
  }

  lemma CommandWordSkipped(command: string, arg: string)
    requires command != [] && forall k :: 0 <= k < |command| ==> !IsSpace(command[k])
    ensures SkipWord(LStrip(command + " " + arg)) == " " + arg
  {
    var s := command + " " + arg;
    assert s[0] == command[0];
    assert LStrip(s) == s;
    assert s == command + (" " + arg);
    SkipWordOver(command, " " + arg);
  }

  lemma LStripBlank(arg: string)
    ensures LStrip(" " + arg) == LStrip(arg)
  {
    assert (" " + arg)[1..] == arg;
  }

  /** A bare command has no argument. */
  lemma BareCommand(command: string)
    requires command != [] && forall k :: 0 <= k < |command| ==> !IsSpace(command[k])
    ensures CommandArgument(command).None?
  {
    assert command[0] == command[0];
    assert LStrip(command) == command;
    assert command + [] == command;
    SkipWordOver(command, []);
  }

  // ---------------------------------------------------------------------------
  // Rules of `/rm`

  /** The `/rm` argument: `old-new` cuts at the first `-` and strips both
      sides; a text without `-` is a rule deleting that word. */
  function ParseRule(rule: string): (r: Rule)
    ensures '-' !in r.pattern
    ensures '-' !in rule ==> r.replacement == []
  {
    match SplitOnce(rule, '-')
    case Some((before, after)) =>
      assert '-' !in Strip(before) by {
        StripKeepsChars(before);
        forall k | 0 <= k < |Strip(before)| ensures Strip(before)[k] != '-' {
          assert Strip(before)[k] in before;
        }
      }
      Rule(Strip(before), Strip(after))
    case None =>
      assert '-' !in Strip(rule) by {
        StripKeepsChars(rule);
        forall k | 0 <= k < |Strip(rule)| ensures Strip(rule)[k] != '-' {
          assert Strip(rule)[k] in rule;
        }
      }
      Rule(Strip(rule), [])
  }

  /** Text without white space at either end. */
  predicate Stripped(s: string) {
    s == [] || (!IsSpace(s[0]) && !IsSpace(s[|s| - 1]))
  }

  /** Writing a rule as `old-new` and parsing it gives the rule back. */
  lemma ParseRuleFormatted(rule: Rule)
    requires '-' !in rule.pattern
    requires Stripped(rule.pattern) && Stripped(rule.replacement)
    ensures ParseRule(rule.pattern + "-" + rule.replacement) == rule
  {
    SplitOnceAt(rule.pattern, '-', rule.replacement);
    StripNoSpaceEnds(rule.pattern);
    StripNoSpaceEnds(rule.replacement);
  }

  /** A bare word is a rule that deletes that word. */
  lemma ParseRuleWord(word: string)
    requires '-' !in word && Stripped(word)
    ensures ParseRule(word) == Rule(word, [])
  {
    StripNoSpaceEnds(word);
  }

  /** The keys of a dict are distinct. */
  predicate DistinctPatterns(rules: seq<Rule>) {
    forall i, j :: 0 <= i < j < |rules| ==> rules[i].pattern != rules[j].pattern
  }

  /** `replacements.get(pattern)`. */
  function Lookup(rules: seq<Rule>, pattern: string): (r: Option<string>)
    ensures r.None? <==> forall i :: 0 <= i < |rules| ==> rules[i].pattern != pattern
    decreases |rules|
  {
    if rules == [] then None
    else if rules[0].pattern == pattern then Some(rules[0].replacement)
    else
      var r := Lookup(rules[1..], pattern);
      assert r.None? ==> forall i :: 0 <= i < |rules| ==> rules[i].pattern != pattern by {
        if r.None? {
          forall i | 1 <= i < |rules| ensures rules[i].pattern != pattern {
            assert rules[i] == rules[1..][i - 1];
          }
        }
      }
      r
  }

  /** `replacements[pattern] = replacement` on an insertion-ordered dict: an
      existing pattern keeps its place and gets the new replacement, a new
      pattern goes last, and every other rule stays as it was. */
  function Assign(rules: seq<Rule>, pattern: string, replacement: string): (r: seq<Rule>)
    requires DistinctPatterns(rules)
    ensures |r| == |rules| + (if Lookup(rules, pattern).None? then 1 else 0)
    ensures forall i :: 0 <= i < |rules| ==>
      r[i] == (if rules[i].pattern == pattern then Rule(pattern, replacement) else rules[i])
    ensures Lookup(rules, pattern).None? ==> r[|rules|] == Rule(pattern, replacement)
    ensures DistinctPatterns(r)
    decreases |rules|
  {
    if rules == [] then [Rule(pattern, replacement)]
    else if rules[0].pattern == pattern then [Rule(pattern, replacement)] + rules[1..]
    else
      var tail := Assign(rules[1..], pattern, replacement);
      assert Lookup(rules[1..], pattern) == Lookup(rules, pattern);
      var r := [rules[0]] + tail;
      assert forall i :: 0 <= i < |tail| ==> rules[0].pattern != tail[i].pattern by {
        forall i | 0 <= i < |tail| ensures rules[0].pattern != tail[i].pattern {
          if i < |rules| - 1 {
            assert rules[1..][i] == rules[i + 1];
          }
        }
      }
      r
  }

  /** After the assignment the pattern maps to the new replacement and every
      other pattern maps to what it mapped to before. */
  lemma {:induction false} AssignLookup(rules: seq<Rule>, pattern: string, replacement: string, other: string)
    requires DistinctPatterns(rules)
    ensures Lookup(Assign(rules, pattern, replacement), other) ==
      if other == pattern then Some(replacement) else Lookup(rules, other)
    decreases |rules|
  {
    if rules != [] && rules[0].pattern != pattern {
      AssignLookup(rules[1..], pattern, replacement, other);
      assert Assign(rules, pattern, replacement)[1..] == Assign(rules[1..], pattern, replacement);
    }
  }

  // ---------------------------------------------------------------------------
  // The stored document of one user

  /** The fields of a user's document. `caption` is `None` when it is absent
      or stored as null; `replacements` is empty when it is absent. */
  datatype UserDoc = UserDoc(
    caption: Option<string>,
    captionWithFilename: Option<bool>,
    destinationChannel: Option<int>,
    replacements: seq<Rule>,
    thumbPath: Option<string>)

  const NoDoc := UserDoc(None, None, None, [], None)

  /** `find_one` read as a document: a missing document has no fields. */
  function DocOf(users: map<int, UserDoc>, userId: int): UserDoc {
    if userId in users then users[userId] else NoDoc
  }

  // ---------------------------------------------------------------------------
  // The settings summary

  const Check: string := "\U{2713} "
  const Bullet: string := "\U{2022} "
  const Arrow: string := " \U{2192} "
  const RemoveMarker: string := "[REMOVE]"
  const WithFilename: string := " (with filename)"
  const CaptionShown: nat := 30

  /** `get_user_thumbnail`: the stored path, when the file exists. */
  function UserThumbnail(doc: UserDoc, files: set<string>): (r: Option<string>)
    ensures r.Some? <==> doc.thumbPath.Some? && doc.thumbPath.value in files
    ensures r.Some? ==> r == doc.thumbPath
  {
    if doc.thumbPath.Some? && doc.thumbPath.value in files then doc.thumbPath else None
  }

  /** The thumbnail line: a check mark for a thumbnail file that exists. */
  function ThumbStatus(doc: UserDoc, files: set<string>): (r: string)
    ensures r == Check <==> UserThumbnail(doc, files).Some? && UserThumbnail(doc, files).value != []
    ensures r != Check ==> r == "X"
  {
    var t := UserThumbnail(doc, files);
    if t.Some? && t.value != [] then Check else "X"
  }

  /** The channel line: the id after a blank, or `X` when none (or 0) is set. */
  function ChannelStatus(doc: UserDoc): (r: string)
    ensures r == "X" <==> doc.destinationChannel.None? || doc.destinationChannel.value == 0
    ensures r != "X" ==> |r| > 1 && r[0] == ' ' && ParseInt(r[1..]) == doc.destinationChannel
  {
    match doc.destinationChannel
    case Some(c) =>
      if c != 0 then
        var r := " " + IntToString(c);
        assert r[1..] == IntToString(c);
        ParseIntToString(c);
        r
      else "X"
    case None => "X"
  }

  /** The caption line: the first thirty characters, `...` when the caption
      is longer, and a note when `{filename}` is filled in; `X` without a
      caption. */
  function CaptionSummary(doc: UserDoc): (r: string)
    ensures doc.caption.None? || doc.caption.value == [] ==> r == "X"
  {
    match doc.caption
    case Some(c) =>
      if c != [] then
        var shown := if |c| > CaptionShown then c[..CaptionShown] + "..." else c;
        if doc.captionWithFilename == Some(true) then shown + WithFilename else shown
      else "X"
    case None => "X"
  }

  function Min(a: int, b: int): int { if a < b then a else b }

  /** The caption summary starts with the caption cut to thirty characters;
      `...` follows exactly when characters were cut, and the note follows
      exactly when the flag is set. */
  lemma CaptionSummaryShape(doc: UserDoc)
    requires doc.caption.Some? && doc.caption.value != []
    ensures var c := doc.caption.value;
      var r := CaptionSummary(doc);
      var n := Min(|c|, CaptionShown);
      var e := if |c| > CaptionShown then 3 else 0;
      && |r| == n + e + (if doc.captionWithFilename == Some(true) then |WithFilename| else 0)
      && r[..n] == c[..n]
      && (|c| > CaptionShown <==> n + 3 <= |r| && r[n..n + 3] == "...")
      && (doc.captionWithFilename == Some(true) ==> r[n + e..] == WithFilename)
  {
    var c := doc.caption.value;
    var r := CaptionSummary(doc);
    var n := Min(|c|, CaptionShown);
    var shown := if |c| > CaptionShown then c[..CaptionShown] + "..." else c;
    assert shown[..n] == c[..n];
    if doc.captionWithFilename == Some(true) {
      assert r == shown + WithFilename;
      assert r[..n] == shown[..n];
      if |c| <= CaptionShown {
        assert r[n] == WithFilename[0] == ' ';
      } else {
        assert r[n..n + 3] == shown[n..n + 3];
      }
    } else {
      assert r == shown;
    }
  }

  /** A caption of at most thirty characters, without the flag, is shown whole. */
  lemma ShortCaptionShownWhole(doc: UserDoc)
    requires doc.caption.Some? && 0 < |doc.caption.value| <= CaptionShown
    requires doc.captionWithFilename != Some(true)
    ensures CaptionSummary(doc) == doc.caption.value
  {
  }

  /** One line of the rules summary. */
  function RuleLine(rule: Rule): (r: string)
    ensures StartsWith(r, Bullet + rule.pattern + Arrow)
    ensures r[|Bullet + rule.pattern + Arrow|..] ==
      if rule.replacement == [] then RemoveMarker else rule.replacement
  {
    var head := Bullet + rule.pattern + Arrow;
    var r := head + (if rule.replacement == [] then RemoveMarker else rule.replacement);
    assert r[..|head|] == head;
    r
  }

  function RuleLines(rules: seq<Rule>): (r: seq<string>)
    ensures |r| == |rules|
    ensures forall i :: 0 <= i < |rules| ==> r[i] == RuleLine(rules[i])
  {
    seq(|rules|, i requires 0 <= i < |rules| => RuleLine(rules[i]))
  }

  /** The rules line: `X ` for an empty table, otherwise the rule lines
      joined by newlines. */
  function RulesSummary(rules: seq<Rule>): (r: string)
    ensures r == "X " <==> rules == []
  {
    if rules == [] then "X "
    else
      var r := Join(RuleLines(rules), '\n');
      JoinStartsWithFirst(RuleLines(rules), '\n');
      assert r[0] == RuleLine(rules[0])[0] == Bullet[0];
      r
  }

  lemma {:induction false} JoinStartsWithFirst(parts: seq<string>, sep: char)
    requires |parts| >= 1
    ensures |Join(parts, sep)| >= |parts[0]|
    ensures Join(parts, sep)[..|parts[0]|] == parts[0]
  {
    if |parts| > 1 {
      assert Join(parts, sep) == parts[0] + ([sep] + Join(parts[1..], sep));
    }
  }

  /** One line per rule, in table order, when no pattern or replacement
      holds a newline. */
  lemma RulesSummaryLines(rules: seq<Rule>)
    requires rules != []
    requires forall i :: 0 <= i < |rules| ==>
      '\n' !in rules[i].pattern && '\n' !in rules[i].replacement
    ensures Split(RulesSummary(rules), '\n') == RuleLines(rules)
  {
    var lines := RuleLines(rules);
    forall i | 0 <= i < |lines| ensures '\n' !in lines[i] {
      var rule := rules[i];
      var line := RuleLine(rule);
      assert line == Bullet + rule.pattern + Arrow +
        (if rule.replacement == [] then RemoveMarker else rule.replacement);
    }
    SplitJoin(lines, '\n');
  }

  /** `callback_data` of a keyboard button: an action and the menu's owner. */
  function ButtonData(action: string, userId: int): string {
    action + "_" + IntToString(userId)
  }

  const ClearCaption: string := "clear_caption"
  const ClearChannel: string := "clear_channel"
  const ClearRules: string := "clear_rules"
  const ClearThumb: string := "clear_thumb"
  const CloseSettings: string := "close_settings"
  const KeyboardActions: seq<string> := [ClearCaption, ClearChannel, ClearRules, ClearThumb, CloseSettings]

  /** What `build_settings_text` returns: the menu text and the callback
      data of its buttons, row by row. */
  datatype Menu = Menu(text: string, buttons: seq<string>)

  /** `build_settings_text`: every button's data reads back as its action
      and the owner of the menu. */
  function BuildSettingsText(userId: int, doc: UserDoc, files: set<string>): (r: Menu)
    ensures |r.buttons| == |KeyboardActions|
    ensures forall i :: 0 <= i < |KeyboardActions| ==>
      ParseCallback(r.buttons[i]) == Some((KeyboardActions[i], userId))
  {
    var text := "\n  **User Settings** `" + IntToString(userId) + "` \n\n **Thumbnail :** "
      + ThumbStatus(doc, files) + " \n **Channel :** " + ChannelStatus(doc)
      + "\n **Caption :** " + CaptionSummary(doc)
      + "\n **Remname Rules :** " + RulesSummary(doc.replacements) + "\n\n";
    var buttons := seq(|KeyboardActions|, i requires 0 <= i < |KeyboardActions| => ButtonData(KeyboardActions[i], userId));
    forall i | 0 <= i < |KeyboardActions|
      ensures ParseCallback(buttons[i]) == Some((KeyboardActions[i], userId))
    {
      ParseButtonData(KeyboardActions[i], userId);
    }
    Menu(text, buttons)
  }

  // ---------------------------------------------------------------------------
  // Callback data

  /** `data, user_id = callback.data.rsplit("_", 1)` and `int(user_id)`;
      `None` when either step raises `ValueError`. */
  function ParseCallback(data: string): (r: Option<(string, int)>)
    ensures r.Some? ==> '_' in data
  {
    match RSplitOnce(data, '_')
    case None => None
    case Some((action, id)) =>
      match ParseInt(id)
      case None => None
      case Some(owner) => Some((action, owner))
  }

  /** Button data parses back to its action and owner, whatever `_` the
      action itself contains. */
  lemma ParseButtonData(action: string, userId: int)
    ensures ParseCallback(ButtonData(action, userId)) == Some((action, userId))
  {
    var id := IntToString(userId);
    IntToStringTailDigits(userId);
    assert '_' !in id by {
      forall k | 0 <= k < |id| ensures id[k] != '_' {
        assert k == 0 ==> id[0] == '-' || IsDigit(id[0]);
      }
    }
    RSplitOnceAt(action, '_', id);
    ParseIntToString(userId);
  }

  /** The document after a keyboard action: each clear action unsets only
      its own fields, and any other action leaves the document as it was. */
  function Cleared(doc: UserDoc, action: string): (r: UserDoc)
    ensures action == ClearCaption ==> CaptionSummary(r) == "X"
    ensures action == ClearChannel ==> ChannelStatus(r) == "X"
    ensures action == ClearRules ==> RulesSummary(r.replacements) == "X "
    ensures action == ClearThumb ==> UserThumbnail(r, {}) == None && r.thumbPath.None?
    ensures action != ClearCaption ==> r.caption == doc.caption && r.captionWithFilename == doc.captionWithFilename
    ensures action != ClearChannel ==> r.destinationChannel == doc.destinationChannel
    ensures action != ClearRules ==> r.replacements == doc.replacements
    ensures action != ClearThumb ==> r.thumbPath == doc.thumbPath
  {
    if action == ClearCaption then doc.(caption := None, captionWithFilename := None)
    else if action == ClearChannel then doc.(destinationChannel := None)
    else if action == ClearRules then doc.(replacements := [])
    else if action == ClearThumb then doc.(thumbPath := None)
    else doc
  }

  /** The thumbnail file that `clear_thumb` deletes, if any. */
  function ThumbFile(users: map<int, UserDoc>, userId: int, action: string): (r: set<string>)
    ensures |r| <= 1
  {
    if action == ClearThumb && userId in users && users[userId].thumbPath.Some?
    then {users[userId].thumbPath.value} else {}
  }

  // ---------------------------------------------------------------------------
  // The commands

  /** What `/setcc` stores for its stripped argument: `clear` in any case
      stores no caption and a false flag; any other text is the caption, and
      the flag tells whether it holds `{filename}`. */
  function CaptionSetting(text: string): (r: (Option<string>, bool))
    ensures r.0.None? <==> EqualsIgnoreCase(text, "clear")
    ensures r.0.None? ==> !r.1
    ensures r.0.Some? ==> r.0.value == text && (r.1 <==> Contains(text, Placeholder))
  {
    if EqualsIgnoreCase(text, "clear") then (None, false)
    else (Some(text), Contains(text, Placeholder))
  }

  /** `clear` is recognised whatever the case of its letters. */
  lemma ClearInAnyCase(text: string)
    requires |text| == 5
    requires forall k :: 0 <= k < 5 ==> Lower(text[k]) == "clear"[k]
    ensures CaptionSetting(text) == (None, false)
  {
    assert LowerString(text) == LowerString("clear");
  }

  /** The `/setcc` preview: `{filename}` shown as `example`. */
  function Preview(caption: string): (r: string)
    ensures !Contains(caption, Placeholder) ==> r == caption
  {
    if Contains(caption, Placeholder) then ReplaceAll(caption, Placeholder, "example") else caption
  }

  /** The preview fills the first placeholder with `example`. */
  lemma PreviewFillsPlaceholder(pre: string, post: string)
    requires '{' !in pre
    ensures Preview(pre + Placeholder + post) == pre + "example" + ReplaceAll(post, Placeholder, "example")
  {
    var s := pre + Placeholder + post;
    ContainsConcatRight(pre, Placeholder + post, Placeholder);
    assert s == pre + (Placeholder + post);
    assert StartsWith(Placeholder + post, Placeholder);
    NotContainsWithoutFirstChar(pre, Placeholder);
    ReplacePlaceholderSubstituted(pre, Placeholder, "example", post);
  }

  datatype Reply =
    | Help                 // the usage text: no argument was given
    | RuleAdded
    | CaptionCleared
    | CaptionSet(preview: string)
    | InvalidChannelId
    | ChannelUnreachable
    | ChannelSet

  /** The outcome of a keyboard press. */
  datatype CallbackReply = Raised | NotYourMenu | MenuClosed | MenuRefreshed

  /** Every stored rule table is a dict: its patterns are distinct. */
  ghost predicate RuleTablesDistinct(users: map<int, UserDoc>) {
    forall u :: u in users ==> DistinctPatterns(users[u].replacements)
  }

  lemma StoreDocument(users: map<int, UserDoc>, userId: int, doc: UserDoc)
    requires RuleTablesDistinct(users) && DistinctPatterns(doc.replacements)
    ensures RuleTablesDistinct(users[userId := doc])
  {
  }

  /** A stored document, or a new one, has a rule table that is a dict. */
  lemma StoredDocument(users: map<int, UserDoc>, userId: int)
    requires RuleTablesDistinct(users)
    ensures DistinctPatterns(DocOf(users, userId).replacements)
  {
  }

  class SettingsStore {
    /** The `users` collection: one document per user id. */
    var users: map<int, UserDoc>

    /** Every stored rule table is a dict: its patterns are distinct. */
    ghost predicate Valid()
      reads this
    {
      RuleTablesDistinct(users)
    }

    constructor (stored: map<int, UserDoc>)
      requires RuleTablesDistinct(stored)
      ensures Valid() && users == stored
    {
      users := stored;
    }

    /** `/rm`: the parsed rule is assigned into the user's table, which is
        then stored (creating the document when there is none). */
    method SetReplacement(userId: int, text: string) returns (reply: Reply)
      requires Valid()
      modifies this
      ensures Valid()
      ensures CommandArgument(text).None? ==> reply == Help && users == old(users)
      ensures CommandArgument(text).Some? ==>
        var rule := ParseRule(Strip(CommandArgument(text).value));
        var doc := DocOf(old(users), userId);
        && reply == RuleAdded
        && users == old(users)[userId := doc.(replacements := Assign(doc.replacements, rule.pattern, rule.replacement))]
    {
      var arg := CommandArgument(text);
      if arg.None? {
        return Help;
      }
      var rule := Strip(arg.value);
      var doc := DocOf(users, userId);
      StoredDocument(users, userId);
      var replacements := doc.replacements;
      var parsed := ParseRule(rule);
      replacements := Assign(replacements, parsed.pattern, parsed.replacement);
      StoreDocument(users, userId, doc.(replacements := replacements));
      users := users[userId := doc.(replacements := replacements)];
      reply := RuleAdded;
    }

    /** `/setcc`: the caption and flag of `CaptionSetting` are stored
        (creating the document when there is none), and the reply previews
        a caption that is set. */
    method SetCaption(userId: int, text: string) returns (reply: Reply)
      requires Valid()
      modifies this
      ensures Valid()
      ensures CommandArgument(text).None? ==> reply == Help && users == old(users)
      ensures CommandArgument(text).Some? ==>
        var (caption, useFilename) := CaptionSetting(Strip(CommandArgument(text).value));
        && reply == (if caption.None? then CaptionCleared else CaptionSet(Preview(caption.value)))
        && users == old(users)[userId := DocOf(old(users), userId).(caption := caption,
                                                                   captionWithFilename := Some(useFilename))]
    {
      var arg := CommandArgument(text);
      if arg.None? {
        return Help;
      }
      var captionText := Strip(arg.value);
      var (caption, useFilename) := CaptionSetting(captionText);
      var doc := DocOf(users, userId);
      StoredDocument(users, userId);
      StoreDocument(users, userId, doc.(caption := caption, captionWithFilename := Some(useFilename)));
      users := users[userId := doc.(caption := caption, captionWithFilename := Some(useFilename))];
      if caption.None? {
        reply := CaptionCleared;
      } else {
        var sample := if useFilename then ReplaceAll(captionText, Placeholder, "example") else captionText;
        reply := CaptionSet(sample);
      }
    }

    /** `/setid`: the argument must read as an integer and the channel must
        be reachable (`reachable` is the outcome of `get_chat`) before the
        id is stored. */
    method SetChannel(userId: int, text: string, reachable: bool) returns (reply: Reply)
      requires Valid()
      modifies this
      ensures Valid()
      ensures CommandArgument(text).None? ==> reply == Help && users == old(users)
      ensures CommandArgument(text).Some? && ParseInt(CommandArgument(text).value).None? ==>
        reply == InvalidChannelId && users == old(users)
      ensures CommandArgument(text).Some? && ParseInt(CommandArgument(text).value).Some? ==>
        var doc := DocOf(old(users), userId);
        if reachable then
          reply == ChannelSet &&
          users == old(users)[userId := doc.(destinationChannel := ParseInt(CommandArgument(text).value))]
        else reply == ChannelUnreachable && users == old(users)
    {
      var arg := CommandArgument(text);
      if arg.None? {
        return Help;
      }
      var channelId := ParseInt(arg.value);
      if channelId.None? {
        return InvalidChannelId;
      }
      if !reachable {
        return ChannelUnreachable;
      }
      var doc := DocOf(users, userId);
      StoredDocument(users, userId);
      StoreDocument(users, userId, doc.(destinationChannel := channelId));
      users := users[userId := doc.(destinationChannel := channelId)];
      reply := ChannelSet;
    }

    /** A press on the settings keyboard by `fromUser`. Data that does not
        parse raises; a press on someone else's menu changes nothing; the
        owner's own press is carried out by `ApplyAction`. */
    method HandleCallback(fs: FileSystem, fromUser: int, data: string) returns (reply: CallbackReply)
      requires Valid()
      modifies this, fs
      ensures Valid()
      ensures ParseCallback(data).None? ==>
        reply == Raised && users == old(users) && fs.files == old(fs.files)
      ensures ParseCallback(data).Some? && ParseCallback(data).value.1 != fromUser ==>
        reply == NotYourMenu && users == old(users) && fs.files == old(fs.files)
      ensures ParseCallback(data).Some? && ParseCallback(data).value.1 == fromUser ==>
        Acted(old(users), old(fs.files), users, fs.files, ParseCallback(data).value.1,
              ParseCallback(data).value.0, reply)
    {
      var parsed := ParseCallback(data);
      if parsed.None? {
        return Raised;
      }
      var (action, owner) := parsed.value;
      if fromUser != owner {
        return NotYourMenu;
      }
      reply := ApplyAction(fs, owner, action);
    }

    /** The owner's press: a clear action unsets its fields of an existing
        document (and `clear_thumb` first deletes the stored thumbnail file
        when it exists); `close_settings` and any other action change
        nothing. */
    method ApplyAction(fs: FileSystem, owner: int, action: string) returns (reply: CallbackReply)
      requires Valid()
      modifies this, fs
      ensures Valid()
      ensures Acted(old(users), old(fs.files), users, fs.files, owner, action, reply)
    {
      if action == ClearThumb && owner in users && users[owner].thumbPath.Some? {
        fs.RemoveIfExists(users[owner].thumbPath.value);
      }
      if owner in users {
        StoreDocument(users, owner, Cleared(users[owner], action));
        users := users[owner := Cleared(users[owner], action)];
      }
      reply := if action == CloseSettings then MenuClosed else MenuRefreshed;
    }
  }

  /** The state after the owner's press of `action`. */
  ghost predicate Acted(users: map<int, UserDoc>, files: set<string>,
                        users': map<int, UserDoc>, files': set<string>,
                        owner: int, action: string, reply: CallbackReply)
  {
    && reply == (if action == CloseSettings then MenuClosed else MenuRefreshed)
    && users' == (if owner in users then users[owner := Cleared(users[owner], action)] else users)
    && files' == files - ThumbFile(users, owner, action)
  }

  /** After `clear_thumb` the menu shows no thumbnail, and the file is gone. */
  lemma ClearThumbShowsNone(users: map<int, UserDoc>, owner: int, files: set<string>)
    requires owner in users
    ensures ThumbStatus(Cleared(users[owner], ClearThumb), files - ThumbFile(users, owner, ClearThumb)) == "X"
    ensures users[owner].thumbPath.Some? ==>
      users[owner].thumbPath.value !in files - ThumbFile(users, owner, ClearThumb)
  {
  }

  /** `/rm` followed by a menu refresh shows the new rule as a line of the
      rules summary. */
  lemma RuleShownAfterAdd(doc: UserDoc, rule: Rule)
    requires DistinctPatterns(doc.replacements)
    ensures exists i :: (0 <= i < |Assign(doc.replacements, rule.pattern, rule.replacement)| &&
      RuleLines(Assign(doc.replacements, rule.pattern, rule.replacement))[i] == RuleLine(rule))
  {
    var rules := Assign(doc.replacements, rule.pattern, rule.replacement);
    var k: int;
    if Lookup(doc.replacements, rule.pattern).None? {
      k := |doc.replacements|;
    } else {
      k :| 0 <= k < |doc.replacements| && doc.replacements[k].pattern == rule.pattern;
    }
    assert rules[k] == Rule(rule.pattern, rule.replacement) == rule;
    assert RuleLines(rules)[k] == RuleLine(rule);
  }
}
