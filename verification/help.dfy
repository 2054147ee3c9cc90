/** The `/help` cog of cogs/help.py: resolving the one `item` argument to a
    category (a cog) or to the category owning a command, the autocomplete
    suggestions, and the contents of the two help pages. The bot's registry is a
    value: its cogs in registration order and its slash commands in the order
    the command tree walks them. */
module Help {
  import opened Text
  import opened Tables
  import Ordering

  /** A registered cog: its registry key, and the optional `cog_name` and
      `cog_description` class attributes. */
  datatype Cog = Cog(key: string, name: Option<string>, description: Option<string>)

  /** A slash command: its qualified name ("play", "music play"), its description,
      and the cog it is bound to, if any. */
  datatype Command = Command(qualifiedName: string, description: string, binding: Option<Cog>)

  datatype Bot = Bot(cogs: seq<Cog>, commands: seq<Command>)

  /** One embed field. */
  datatype Field = Field(name: string, value: string)

  datatype HelpReply =
    | AllCategories(fields: seq<Field>)
    | CogPage(title: string, description: string, fields: seq<Field>)
    | NotFound(item: string)

  const NoDescription: string := "No description."
  const MaxSuggestions: nat := 25

  /** `getattr(cog, "cog_name", key)`. */
  function FriendlyName(c: Cog): (r: string)
    ensures c.name.Some? ==> r == c.name.value
    ensures c.name.None? ==> r == c.key
  {
    if c.name.Some? then c.name.value else c.key
  }

  /** `getattr(cog, "cog_description", "No description.")`: only a missing attribute
      gets the default; an empty description is shown as it is. */
  function CogDescription(c: Cog): (r: string)
    ensures c.description.Some? ==> r == c.description.value
    ensures c.description == Some("") ==> r == ""
    ensures c.description.None? ==> r == NoDescription
  {
    if c.description.Some? then c.description.value else NoDescription
  }

  // ---------------------------------------------------------------- matching

  /** The item as the matchers see it: lower-cased, with the two short forms
      "info" and "mod" expanded. */
  function Normalize(item: string): (r: string)
    ensures Lower(item) == "info" ==> r == "information"
    ensures Lower(item) == "mod" ==> r == "moderation"
    ensures Lower(item) != "info" && Lower(item) != "mod" ==> r == Lower(item)
  {
    var lowered := Lower(item);
    if lowered == "info" then "information"
    else if lowered == "mod" then "moderation"
    else lowered
  }

  /** `match_cog_by_name`: the first cog, in registration order, whose lower-cased
      friendly name is `nameLower`. */
  function MatchCogByName(cogs: seq<Cog>, nameLower: string): (r: Option<Cog>)
    ensures r.Some? ==>
      exists k :: (0 <= k < |cogs| && cogs[k] == r.value
        && Lower(FriendlyName(cogs[k])) == nameLower
        && forall j :: 0 <= j < k ==> Lower(FriendlyName(cogs[j])) != nameLower)
    ensures r.None? <==> forall j :: 0 <= j < |cogs| ==> Lower(FriendlyName(cogs[j])) != nameLower
  {
    match FindFirst(cogs, (c: Cog) => Lower(FriendlyName(c)) == nameLower)
    case None => None
    case Some(k) => Some(cogs[k])
  }

  /** `match_cog_by_command`: the binding of the first command, in walk order, whose
      lower-cased qualified name is `commandLower`. The search stops at that
      command even when it is bound to no cog. */
  function MatchCogByCommand(commands: seq<Command>, commandLower: string): (r: Option<Cog>)
    ensures r.Some? ==>
      exists k :: (0 <= k < |commands| && commands[k].binding == r
        && Lower(commands[k].qualifiedName) == commandLower
        && forall j :: 0 <= j < k ==> Lower(commands[j].qualifiedName) != commandLower)
    ensures (forall j :: 0 <= j < |commands| ==> Lower(commands[j].qualifiedName) != commandLower) ==> r.None?
  {
    match FindFirst(commands, (c: Command) => Lower(c.qualifiedName) == commandLower)
    case None => None
    case Some(k) => commands[k].binding
  }

  /** A command that is first in walk order under its name answers for that name,
      even when a later command of the same name belongs to a cog. */
  lemma FirstCommandDecides(commands: seq<Command>, commandLower: string, k: nat)
    requires k < |commands| && Lower(commands[k].qualifiedName) == commandLower
    requires forall j :: 0 <= j < k ==> Lower(commands[j].qualifiedName) != commandLower
    ensures MatchCogByCommand(commands, commandLower) == commands[k].binding
  {
    var found := FindFirst(commands, (c: Command) => Lower(c.qualifiedName) == commandLower);
    assert found.Some?;
    assert found.value == k;
  }

  // ------------------------------------------------------------------ pages

  /** The order of the category page: by lower-cased friendly name, compared as
      Python compares strings. */
  predicate ByLoweredName(a: Field, b: Field) {
    LexLe(Lower(a.name), Lower(b.name))
  }

  lemma ByLoweredNameIsTotalPreorder()
    ensures Ordering.TotalPreorder(ByLoweredName)
  {
    forall a: Field, b: Field ensures ByLoweredName(a, b) || ByLoweredName(b, a) {
      LexLeTotal(Lower(a.name), Lower(b.name));
    }
    forall a: Field, b: Field, c: Field | ByLoweredName(a, b) && ByLoweredName(b, c)
      ensures ByLoweredName(a, c)
    {
      LexLeTransitive(Lower(a.name), Lower(b.name), Lower(c.name));
    }
  }

  function CategoryField(c: Cog): Field {
    Field(FriendlyName(c), CogDescription(c))
  }

  /** `build_all_categories_embed`: one field per cog, sorted by lower-cased friendly
      name. */
  function CategoryFields(cogs: seq<Cog>): (r: seq<Field>)
    ensures multiset(r) == multiset(seq(|cogs|, i requires 0 <= i < |cogs| => CategoryField(cogs[i])))
    ensures Ordering.Sorted(r, ByLoweredName)
  {
    ByLoweredNameIsTotalPreorder();
    Ordering.Sort(seq(|cogs|, i requires 0 <= i < |cogs| => CategoryField(cogs[i])), ByLoweredName)
  }

  /** Every cog has its field on the category page, and every field there is a cog's. */
  lemma CategoryFieldsListEveryCog(cogs: seq<Cog>, f: Field)
    ensures f in CategoryFields(cogs) <==> exists c :: c in cogs && f == CategoryField(c)
  {
    var fields := seq(|cogs|, i requires 0 <= i < |cogs| => CategoryField(cogs[i]));
    assert f in CategoryFields(cogs) <==> f in multiset(fields);
    if f in fields {
      var i :| 0 <= i < |fields| && fields[i] == f;
      assert cogs[i] in cogs;
    }
    if exists c :: c in cogs && f == CategoryField(c) {
      var c :| c in cogs && f == CategoryField(c);
      var i :| 0 <= i < |cogs| && cogs[i] == c;
      assert fields[i] == f;
    }
  }

  predicate ByQualifiedName(a: Command, b: Command) {
    LexLe(a.qualifiedName, b.qualifiedName)
  }

  lemma ByQualifiedNameIsTotalPreorder()
    ensures Ordering.TotalPreorder(ByQualifiedName)
  {
    forall a: Command, b: Command ensures ByQualifiedName(a, b) || ByQualifiedName(b, a) {
      LexLeTotal(a.qualifiedName, b.qualifiedName);
    }
    forall a: Command, b: Command, c: Command | ByQualifiedName(a, b) && ByQualifiedName(b, c)
      ensures ByQualifiedName(a, c)
    {
      LexLeTransitive(a.qualifiedName, b.qualifiedName, c.qualifiedName);
    }
  }

  /** The commands bound to `cog`, sorted by qualified name: each bound command as
      often as the tree lists it, and nothing else. */
  function CommandsOf(commands: seq<Command>, cog: Cog): (r: seq<Command>)
    ensures forall c :: multiset(r)[c] == if c.binding == Some(cog) then multiset(commands)[c] else 0
    ensures Ordering.Sorted(r, ByQualifiedName)
  {
    ByQualifiedNameIsTotalPreorder();
    FilterCounts(commands, (c: Command) => c.binding == Some(cog));
    Ordering.Sort(Filter(commands, (c: Command) => c.binding == Some(cog)), ByQualifiedName)
  }

  /** A cog lists no commands exactly when none is bound to it. */
  lemma NoCommandsIffUnbound(commands: seq<Command>, cog: Cog)
    ensures |CommandsOf(commands, cog)| == 0 <==> forall c :: c in commands ==> c.binding != Some(cog)
  {
    var listed := CommandsOf(commands, cog);
    if |listed| > 0 {
      assert multiset(listed)[listed[0]] > 0;
    } else {
      forall c | c in commands ensures c.binding != Some(cog) {
        assert multiset(listed)[c] == 0;
      }
    }
  }

  /** `cmd.description or "No description."`: here an empty description does get the
      default. */
  function CommandField(c: Command): Field {
    Field("/" + c.qualifiedName, if c.description == "" then NoDescription else c.description)
  }

  const NoCommandsField: Field := Field("No commands found", "(This category has no slash commands.)")

  /** `build_cog_commands_embed`: a field per bound command in name order, or the
      placeholder field when the cog has none. */
  function CogPageFor(bot: Bot, cog: Cog): (r: HelpReply)
    ensures r.CogPage? && r.title == FriendlyName(cog) + " Commands" && r.description == CogDescription(cog)
    ensures var listed := CommandsOf(bot.commands, cog);
      && (|listed| == 0 <==> forall c :: c in bot.commands ==> c.binding != Some(cog))
      && (|listed| == 0 ==> r.fields == [NoCommandsField])
      && (|listed| > 0 ==> |r.fields| == |listed| && forall i :: 0 <= i < |listed| ==> r.fields[i] == CommandField(listed[i]))
  {
    var listed := CommandsOf(bot.commands, cog);
    NoCommandsIffUnbound(bot.commands, cog);
    var fields := if |listed| == 0 then [NoCommandsField]
                  else seq(|listed|, i requires 0 <= i < |listed| => CommandField(listed[i]));
    CogPage(FriendlyName(cog) + " Commands", CogDescription(cog), fields)
  }

  // ------------------------------------------------------------------ /help

  /** `help_command`: no item lists the categories; otherwise a category whose name
      matches wins over a command whose name matches, and nothing matching gives
      the not-found reply with the item as typed. */
  function HelpCommand(bot: Bot, item: Option<string>): (r: HelpReply)
    ensures r.AllCategories? <==> item.None? || item.value == ""
    ensures r.AllCategories? ==> r.fields == CategoryFields(bot.cogs)
    ensures item.Some? && item.value != "" ==>
      var wanted := Normalize(item.value);
      match MatchCogByName(bot.cogs, wanted)
      case Some(cog) => r == CogPageFor(bot, cog)
      case None =>
        match MatchCogByCommand(bot.commands, wanted)
        case Some(cog) => r == CogPageFor(bot, cog)
        case None => r == NotFound(item.value)
  {
    if item.None? || item.value == "" then AllCategories(CategoryFields(bot.cogs))
    else
      var wanted := Normalize(item.value);
      match MatchCogByName(bot.cogs, wanted)
      case Some(cog) => CogPageFor(bot, cog)
      case None =>
        match MatchCogByCommand(bot.commands, wanted)
        case Some(cog) => CogPageFor(bot, cog)
        case None => NotFound(item.value)
  }

  /** Matching ignores case: an item and its lower-cased form reach the same page,
      and miss together. */
  lemma HelpIgnoresCase(bot: Bot, item: string)
    requires item != ""
    ensures HelpCommand(bot, Some(Lower(item))).CogPage? <==> HelpCommand(bot, Some(item)).CogPage?
    ensures HelpCommand(bot, Some(item)).CogPage? ==> HelpCommand(bot, Some(Lower(item))) == HelpCommand(bot, Some(item))
  {
    LowerIdempotent(item);
    assert Normalize(Lower(item)) == Normalize(item);
  }

  /** A category named like a command is shown for that name: the command is never
      consulted. */
  lemma CategoryBeatsCommand(bot: Bot, item: string, cog: Cog)
    requires cog in bot.cogs && Lower(FriendlyName(cog)) == Normalize(item) && item != ""
    ensures HelpCommand(bot, Some(item)).CogPage?
    ensures HelpCommand(bot, Some(item)) == CogPageFor(bot, MatchCogByName(bot.cogs, Normalize(item)).value)
  {
    var k :| 0 <= k < |bot.cogs| && bot.cogs[k] == cog;
    assert MatchCogByName(bot.cogs, Normalize(item)).Some?;
  }

  // ----------------------------------------------------------- autocomplete

  /** The friendly names, in registration order, of the cogs whose lower-cased name
      contains the lower-cased input. */
  function Suggestions(cogs: seq<Cog>, current: string): (r: seq<string>)
    ensures forall s :: s in r <==> exists c :: c in cogs && s == FriendlyName(c) && Contains(Lower(s), Lower(current))
    ensures |r| <= |cogs|
  {
    if |cogs| == 0 then []
    else
      var rest := Suggestions(cogs[1..], current);
      assert forall c :: c in cogs <==> c == cogs[0] || c in cogs[1..];
      if Contains(Lower(FriendlyName(cogs[0])), Lower(current)) then [FriendlyName(cogs[0])] + rest else rest
  }

  /** The suggestions for one more registered cog are the earlier ones, followed by
      its name when it matches: suggestions keep registration order, one per cog. */
  lemma {:induction false} SuggestionsAppend(cogs: seq<Cog>, c: Cog, current: string)
    ensures Suggestions(cogs + [c], current)
      == Suggestions(cogs, current)
         + (if Contains(Lower(FriendlyName(c)), Lower(current)) then [FriendlyName(c)] else [])
  {
    var all := cogs + [c];
    if |cogs| == 0 {
      assert all == [c];
    } else {
      assert all[0] == cogs[0] && all[1..] == cogs[1..] + [c];
      SuggestionsAppend(cogs[1..], c, current);
    }
  }

  /** `help_autocomplete`: the first 25 suggestions. */
  function Autocomplete(cogs: seq<Cog>, current: string): (r: seq<string>)
    ensures |r| <= MaxSuggestions
    ensures |r| == if |Suggestions(cogs, current)| < MaxSuggestions then |Suggestions(cogs, current)| else MaxSuggestions
    ensures r == Suggestions(cogs, current)[..|r|]
    ensures forall s :: s in r ==> exists c :: c in cogs && s == FriendlyName(c) && Contains(Lower(s), Lower(current))
  {
    var all := Suggestions(cogs, current);
    if |all| <= MaxSuggestions then all else all[..MaxSuggestions]
  }

  /** An empty input suggests every category, in registration order. */
  lemma {:induction false} EmptyInputSuggestsAll(cogs: seq<Cog>)
    ensures |Suggestions(cogs, "")| == |cogs|
    ensures forall i :: 0 <= i < |cogs| ==> Suggestions(cogs, "")[i] == FriendlyName(cogs[i])
  {
    if |cogs| > 0 {
      ContainsEmpty(Lower(FriendlyName(cogs[0])));
      EmptyInputSuggestsAll(cogs[1..]);
      var later := Suggestions(cogs[1..], "");
      assert Suggestions(cogs, "") == [FriendlyName(cogs[0])] + later;
      forall i | 1 <= i < |cogs| ensures Suggestions(cogs, "")[i] == FriendlyName(cogs[i]) {
        assert cogs[1..][i - 1] == cogs[i];
      }
    }
  }
}
