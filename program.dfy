/** The program search result (`ProgramResult` and `Action`) without its
    widgets, and the extraction of one from a parsed desktop entry, as done
    for each `.desktop` file inside `find_all`. */
module Program {
  import opened Wrappers
  import opened Text
  import opened ExecFormat
  import opened Category

  /** A desktop action: a named alternate launch command of a program. */
  datatype Action = Action(name: string, exec: string)

  /** A program search result. `exec` is the raw `Exec` value of the entry;
      the field codes are stripped only when the command is launched. */
  datatype ProgramResult = ProgramResult(
    name: string,
    category: string,
    description: string,
    icon: Option<string>,
    version: Option<string>,
    exec: string,
    actions: Option<seq<Action>>)

  /** One section of a parsed desktop entry: attribute name to value. */
  type Section = map<string, string>

  /** A parsed desktop entry: section name to section. */
  type Entry = map<string, Section>

  const MainSection: string := "Desktop Entry"

  /** `parsed.section(section).attr(key)`: absent when either the section or
      the key is. */
  function Attr(e: Entry, section: string, key: string): (a: Option<string>)
    ensures a.Some? <==> section in e && key in e[section]
    ensures a.Some? ==> a.value == e[section][key]
  {
    if section in e && key in e[section] then Some(e[section][key]) else None
  }

  /** The `show` test: `NoDisplay` and `Hidden` each default to `"false"` and
      must equal it. */
  function IsShown(e: Entry): (shown: bool)
    ensures shown <==> FlagOff(e, "NoDisplay") && FlagOff(e, "Hidden")
  {
    && Attr(e, MainSection, "NoDisplay").GetOr("false") == "false"
    && Attr(e, MainSection, "Hidden").GetOr("false") == "false"
  }

  /** The identifiers listed in `Actions`, split on `;`, empty ones dropped. */
  function ActionIds(e: Entry): (ids: seq<string>)
    ensures forall k :: 0 <= k < |ids| ==> ids[k] != "" && ';' !in ids[k]
    ensures Attr(e, MainSection, "Actions").None? ==> ids == []
  {
    match Attr(e, MainSection, "Actions")
    case None => []
    case Some(list) => NonEmpty(Split(list, ';'))
  }

  /** A present `Actions` list yields its `;`-pieces in order, with the
      empty pieces (from `;;` or a trailing `;`) dropped one by one. */
  lemma ActionIdsOfList(e: Entry, pieces: seq<string>)
    requires |pieces| >= 1 && forall k :: 0 <= k < |pieces| ==> ';' !in pieces[k]
    requires Attr(e, MainSection, "Actions") == Some(Join(pieces, ';'))
    ensures ActionIds(e) == NonEmpty(pieces)
  {
    SplitJoin(pieces, ';');
  }

  /** In particular a list with no empty piece yields exactly its pieces. */
  lemma ActionIdsExact(e: Entry, list: string)
    requires Attr(e, MainSection, "Actions") == Some(list)
    requires forall k :: 0 <= k < |Split(list, ';')| ==> Split(list, ';')[k] != ""
    ensures ActionIds(e) == Split(list, ';')
  {
    NonEmptyKeepsAll(Split(list, ';'));
  }

  /** `Actions=a;;b;a;` lists `a`, `b`, `a`: the ids keep their order and
      repetitions, and the empty pieces are dropped. */
  lemma ActionIdsKeepOrder(e: Entry, a: string, b: string)
    requires a != "" && b != "" && ';' !in a && ';' !in b
    requires Attr(e, MainSection, "Actions") == Some(a + [';', ';'] + b + [';'] + a + [';'])
    ensures ActionIds(e) == [a, b, a]
  {
    var pieces := [a, "", b, a, ""];
    var t1 := ["", b, a, ""];
    var t2 := [b, a, ""];
    var t3 := [a, ""];
    assert pieces == [a] + t1 && t1 == [""] + t2 && t2 == [b] + t3 && t3 == [a] + [""];
    JoinPieces(a, b, pieces, t1, t2, t3);
    ActionIdsOfList(e, pieces);
    KeptPieces(a, b, pieces, t1, t2, t3);
  }

  lemma KeptPieces(a: string, b: string, pieces: seq<string>, t1: seq<string>, t2: seq<string>, t3: seq<string>)
    requires a != "" && b != ""
    requires pieces == [a] + t1 && t1 == [""] + t2 && t2 == [b] + t3 && t3 == [a] + [""]
    ensures NonEmpty(pieces) == [a, b, a]
  {
    NonEmptySingle(a);
    NonEmptySingle("");
    NonEmptySingle(b);
    NonEmptyAppend([a], [""]);
    NonEmptyAppend([b], t3);
    NonEmptyAppend([""], t2);
    NonEmptyAppend([a], t1);
  }

  lemma JoinPieces(a: string, b: string, pieces: seq<string>, t1: seq<string>, t2: seq<string>, t3: seq<string>)
    requires pieces == [a] + t1 && t1 == [""] + t2 && t2 == [b] + t3 && t3 == [a] + [""]
    ensures Join(pieces, ';') == a + [';', ';'] + b + [';'] + a + [';']
  {
    JoinCons(a, [""], ';');
    JoinCons(b, t3, ';');
    JoinCons("", t2, ';');
    JoinCons(a, t1, ';');
  }

  /** The name of the section that describes action `id`. */
  function ActionSection(id: string): (name: string)
    // never the main section, and the id can be read back off the name
    ensures name != MainSection
    ensures |name| == |id| + 15 && name[15..] == id
  {
    assert ("Desktop Action " + id)[15..] == id;
    "Desktop Action " + id
  }

  /** Distinct action ids describe themselves in distinct sections. */
  lemma ActionSectionInjective(x: string, y: string)
    requires ActionSection(x) == ActionSection(y)
    ensures x == y
  {
    assert x == ActionSection(x)[15..];
  }

  /** The section of action `id` has an `Exec` attribute. */
  predicate HasActionExec(e: Entry, id: string) {
    ActionSection(id) in e && "Exec" in e[ActionSection(id)]
  }

  /** The `Action` that a listed id with an `Exec` attribute becomes. */
  function ActionOf(e: Entry, id: string): (a: Action)
    requires HasActionExec(e, id)
    ensures a.exec == e[ActionSection(id)]["Exec"]
    ensures "Name" in e[ActionSection(id)] ==> a.name == e[ActionSection(id)]["Name"]
    ensures "Name" !in e[ActionSection(id)] ==> a.name == "Unnamed Action"
  {
    Action(Attr(e, ActionSection(id), "Name").GetOr("Unnamed Action"),
           e[ActionSection(id)]["Exec"])
  }

  /** The `map(..).collect()` over the action ids, in order. The `unwrap` of
      a missing `Exec` is the failure, reported with the first id lacking it. */
  function BuildActions(e: Entry, ids: seq<string>): (r: Result<seq<Action>, string>)
    ensures r.Success? <==> forall k :: 0 <= k < |ids| ==> HasActionExec(e, ids[k])
    ensures r.Success? ==> |r.value| == |ids|
    ensures r.Success? ==> forall k :: 0 <= k < |ids| ==> r.value[k] == ActionOf(e, ids[k])
    ensures r.Failure? ==> exists k :: 0 <= k < |ids| && ids[k] == r.error
                             && !HasActionExec(e, ids[k])
                             && forall j :: 0 <= j < k ==> HasActionExec(e, ids[j])
  {
    if ids == [] then Success([])
    else if !HasActionExec(e, ids[0]) then Failure(ids[0])
    else match BuildActions(e, ids[1..])
      case Failure(id) =>
        assert forall j :: 1 <= j < |ids| ==> ids[j] == ids[1..][j - 1];
        Failure(id)
      case Success(rest) => Success([ActionOf(e, ids[0])] + rest)
  }

  /** What processing one parsed `.desktop` file comes to: nothing, one
      result, or the failure of the `unwrap` on a listed action's `Exec`. */
  datatype Extraction = Skip | Emit(result: ProgramResult) | Abort(action: string)

  /** A flag that does not hide the entry: absent, or exactly `"false"`. */
  predicate FlagOff(e: Entry, key: string) {
    MainSection in e && key in e[MainSection] ==> e[MainSection][key] == "false"
  }

  /** The main section has an `Exec` attribute. */
  predicate HasExec(e: Entry) {
    MainSection in e && "Exec" in e[MainSection]
  }

  /** The body of the `.desktop` branch of `find_all`: the action list is
      built first, then `Exec` is required, then the entry must be shown. */
  function ExtractEntry(e: Entry): (x: Extraction)
    // an action without `Exec` fails, whatever the flags and `Exec` say
    ensures x.Abort? <==> exists k :: 0 <= k < |ActionIds(e)| && !HasActionExec(e, ActionIds(e)[k])
    ensures x.Abort? ==> x.action in ActionIds(e) && !HasActionExec(e, x.action)
    // otherwise a result exactly for shown entries with `Exec`
    ensures x.Emit? <==> && (forall k :: 0 <= k < |ActionIds(e)| ==> HasActionExec(e, ActionIds(e)[k]))
                         && FlagOff(e, "NoDisplay") && FlagOff(e, "Hidden") && HasExec(e)
    ensures x.Emit? ==> ResultFields(e, x.result)
    ensures x.Emit? ==> ResultActions(e, x.result)
  {
    var show := IsShown(e);
    var ids := ActionIds(e);
    var built := if |ids| > 0 then BuildActions(e, ids) else Success([]);
    match built
    case Failure(id) => Abort(id)
    case Success(list) =>
      var actions := if |ids| > 0 then Some(list) else None;
      match Attr(e, MainSection, "Exec")
      case None => Skip
      case Some(exec) =>
        if show then
          Emit(ProgramResult(
            Attr(e, MainSection, "Name").GetOr("Unnamed Application"),
            ChooseCategory(Attr(e, MainSection, "Categories")),
            Attr(e, MainSection, "Comment").GetOr(""),
            Attr(e, MainSection, "Icon"),
            Attr(e, MainSection, "Version"),
            exec,
            actions))
        else Skip
  }

  /** The value of a main-section attribute, or a default when it is absent. */
  function MainOr(e: Entry, key: string, default: string): string {
    if MainSection in e && key in e[MainSection] then e[MainSection][key] else default
  }

  /** The scalar fields of a result built from `e`: `Name` defaults to
      "Unnamed Application", `Comment` to the empty string, the category is
      chosen from `Categories`, `Icon` and `Version` pass through, and `exec`
      is the raw `Exec` value. */
  ghost predicate ResultFields(e: Entry, r: ProgramResult) {
    && r.name == MainOr(e, "Name", "Unnamed Application")
    && r.description == MainOr(e, "Comment", "")
    && r.category == ChooseCategory(Attr(e, MainSection, "Categories"))
    && (r.icon.Some? <==> MainSection in e && "Icon" in e[MainSection])
    && (r.icon.Some? ==> r.icon.value == e[MainSection]["Icon"])
    && (r.version.Some? <==> MainSection in e && "Version" in e[MainSection])
    && (r.version.Some? ==> r.version.value == e[MainSection]["Version"])
    && HasExec(e) && r.exec == e[MainSection]["Exec"]
  }

  /** The actions of a result built from `e`: none when no id is listed,
      otherwise one per listed id, in order. */
  ghost predicate ResultActions(e: Entry, r: ProgramResult) {
    var ids := ActionIds(e);
    && (r.actions.None? <==> ids == [])
    && (r.actions.Some? ==>
          && |r.actions.value| == |ids| > 0
          && forall k :: 0 <= k < |ids| ==>
               HasActionExec(e, ids[k]) && r.actions.value[k] == ActionOf(e, ids[k]))
  }

  /** `activate`: the command line handed to the shell-word splitter is the
      stored raw command with its field codes stripped. */
  function LaunchCommand(r: ProgramResult): (cmd: string)
    ensures |cmd| <= |r.exec|
    ensures !HasFieldCode(r.exec) ==> cmd == r.exec
  {
    FormatExec(r.exec)
  }

  /** The command line of an action's button: the action's raw command,
      formatted once while the button is built, and launched as it is when
      the button is clicked. */
  function ActionCommand(a: Action): (cmd: string)
    ensures |cmd| <= |a.exec|
    ensures '%' !in a.exec ==> cmd == a.exec
  {
    assert '%' !in a.exec ==> FormatExec(a.exec) == a.exec by {
      if '%' !in a.exec { FormatExecKeepsPercentFree(a.exec); }
    }
    FormatExec(a.exec)
  }

  /** A result stores the entry's raw `Exec`; activating it launches that
      command with its field codes stripped. */
  lemma LaunchesEntryExec(e: Entry)
    requires ExtractEntry(e).Emit?
    ensures HasExec(e)
    ensures LaunchCommand(ExtractEntry(e).result) == FormatExec(e[MainSection]["Exec"])
  {
  }

  /** The `k`-th action button of a result launches the formatted `Exec` of
      the `k`-th listed action's own section. */
  lemma ActionLaunchesSectionExec(e: Entry, k: nat)
    requires ExtractEntry(e).Emit? && k < |ActionIds(e)|
    ensures ExtractEntry(e).result.actions.Some?
    ensures k < |ExtractEntry(e).result.actions.value|
    ensures HasActionExec(e, ActionIds(e)[k])
    ensures ActionCommand(ExtractEntry(e).result.actions.value[k])
            == FormatExec(e[ActionSection(ActionIds(e)[k])]["Exec"])
  {
  }
}
